/** Snapshots: recording a tree as a manifest (`snapshot.rs`). */
module Snapshots {
  import opened Core
  import opened Paths
  import opened Storage
  import opened Worktrees

  const IGNORE_FILE: Comps := [".fabricignore"]

  /** The patterns listed in a `.fabricignore`. */
  const ParsePatterns: Bytes -> seq<string>

  predicate Contains(s: string, pattern: string) {
    pattern <= s || (s != "" && Contains(s[1..], pattern))
  }

  /** A pattern matches wherever it stands in the path. */
  lemma {:induction false} ContainsMeans(s: string, pattern: string)
    ensures Contains(s, pattern) <==> OccursIn(pattern, s)
  {
    if pattern <= s {
      assert s[0..] == s;
    } else if s != "" {
      ContainsMeans(s[1..], pattern);
      forall i: nat | i < |s| ensures s[1..][i..] == s[i + 1..] {
      }
      if i: nat :| i <= |s| && pattern <= s[i..] {
        assert i > 0 && pattern <= s[1..][i - 1..];
      }
      if i: nat :| i <= |s[1..]| && pattern <= s[1..][i..] {
        assert pattern <= s[i + 1..];
      }
    }
  }

  ghost predicate Ignored(t: Tree, path: string) {
    IGNORE_FILE in t && exists p :: p in ParsePatterns(t[IGNORE_FILE]) && Contains(path, p)
  }

  /** `ignore_patterns`: none without an ignore file. */
  function IgnorePatterns(t: Tree): seq<string> {
    if IGNORE_FILE in t then ParsePatterns(t[IGNORE_FILE]) else []
  }

  predicate IsIgnored(t: Tree, path: string): (r: bool)
    ensures r <==> Ignored(t, path)
  {
    exists p :: p in IgnorePatterns(t) && Contains(path, p)
  }

  /** What drift detection looks at. */
  ghost predicate Tracked(t: Tree, c: Comps)
    requires c != []
  {
    c in t && !Excluded(c) && !Ignored(t, Join(c))
  }

  ghost predicate Tombstoned(t: Tree, tombstones: seq<Tombstone>, c: Comps)
    requires c != [] && c in t
  {
    PathPurged(tombstones, Join(c)) || ContentPurged(tombstones, HashBytes(t[c]))
  }

  /** What a snapshot opens and cuts into chunks. */
  ghost predicate Walked(t: Tree, tombstones: seq<Tombstone>, c: Comps)
    requires c != []
  {
    Tracked(t, c) && !PathPurged(tombstones, Join(c))
  }

  /** What a snapshot records. */
  ghost predicate Captured(t: Tree, tombstones: seq<Tombstone>, c: Comps)
    requires c != []
  {
    Tracked(t, c) && !Tombstoned(t, tombstones, c)
  }

  /** The same spelled out: none of the three names among the components, no pattern anywhere in the path,
      neither path nor content on a tombstone. */
  ghost predicate Recorded(t: Tree, tombstones: seq<Tombstone>, c: Comps)
    requires c != [] && c in t
  {
    && KeptInView(c)
    && ([".fabricignore"] in t ==> forall p :: p in ParsePatterns(t[[".fabricignore"]]) ==> !OccursIn(p, Join(c)))
    && forall b :: b in tombstones ==> b.path != Join(c) && b.content != HashBytes(t[c])
  }

  ghost predicate OccursIn(pattern: string, s: string) { exists i: nat :: i <= |s| && pattern <= s[i..] }

  lemma RecordedIff(t: Tree, tombstones: seq<Tombstone>, c: Comps)
    requires c != [] && c in t
    ensures Recorded(t, tombstones, c) <==> Captured(t, tombstones, c)
  {
    forall p ensures Contains(Join(c), p) <==> OccursIn(p, Join(c)) {
      ContainsMeans(Join(c), p);
    }
  }

  // ---------------------------------------------------------------------------------------------
  // Chunks
  // ---------------------------------------------------------------------------------------------

  /** Where FastCDC would end the next chunk. */
  const CutPoint: Bytes -> nat

  /** The length of the next chunk: between CDC_MIN and CDC_MAX, the last one as long as what is left. */
  function PieceLength(rest: Bytes): (n: nat)
    requires rest != []
    ensures 1 <= n <= |rest| && n <= 262_144 && (n == |rest| || 16_384 <= n)
    ensures 16_384 <= CutPoint(rest) <= 262_144 && CutPoint(rest) <= |rest| && 16_384 < |rest| ==> n == CutPoint(rest)
    ensures CutPoint(rest) < 16_384 < |rest| ==> n == 16_384
    ensures CutPoint(rest) > |rest| || CutPoint(rest) > 262_144 ==> n == |rest| || n == 262_144
  {
    var longest := if |rest| < CDC_MAX then |rest| else CDC_MAX;
    if longest <= CDC_MIN || CutPoint(rest) > longest then longest
    else if CutPoint(rest) < CDC_MIN then CDC_MIN
    else CutPoint(rest)
  }

  function ChunksOf(data: Bytes): (r: seq<Hash>)
    ensures r == [] <==> data == []
    decreases |data|
  {
    if data == [] then []
    else
      var n := PieceLength(data);
      [HashBytes(data[..n])] + ChunksOf(data[n..])
  }

  /** All chunks of all files that a snapshot opens. */
  ghost function WalkedChunks(t: Tree, tombstones: seq<Tombstone>): set<Hash>
    requires ProperTree(t)
  {
    set c, h | c in t && Walked(t, tombstones, c) && h in ChunksOf(t[c]) :: h
  }

  /** A file has at most one chunk more than CDC_MIN goes into it. */
  lemma {:induction false} ChunkCount(data: Bytes)
    ensures |ChunksOf(data)| * CDC_MIN < |data| + CDC_MIN
    decreases |data|
  {
    if data != [] {
      ChunkCount(data[PieceLength(data)..]);
    }
  }

  /** Where all its chunks are stored, a file can be read back. */
  lemma {:induction false} ChunksAssemble(d: Disk, data: Bytes)
    requires CollisionFree() && Intact(d) && forall h :: h in ChunksOf(data) ==> h in d.objects
    ensures Assemble(d.objects, ChunksOf(data)) == Ok(data)
    decreases |data|
  {
    if data != [] {
      var n := PieceLength(data);
      var piece, rest := data[..n], data[n..];
      var h := HashBytes(piece);
      assert h in ChunksOf(data) && HashBytes(d.objects[h]) == h;
      AssembleOne(d.objects, h, piece);
      ChunksAssemble(d, rest);
      AssembleConcat(d.objects, [h], ChunksOf(rest));
      SplitAt(data, n);
    }
  }

  lemma AssembleOne(objects: map<Hash, Bytes>, h: Hash, piece: Bytes)
    requires ReadObject(objects, h) == Ok(piece)
    ensures Assemble(objects, [h]) == Ok(piece)
  {
    assert [h][..0] == [] && [] + piece == piece;
  }

  lemma SplitAt<T>(s: seq<T>, n: nat)
    requires n <= |s|
    ensures s[..n] + s[n..] == s
  {
  }

  // ---------------------------------------------------------------------------------------------
  // What a manifest says of a tree
  // ---------------------------------------------------------------------------------------------

  /** `files` records exactly the captured files of `t` among the places `done`. */
  ghost predicate Faithful(files: seq<FileEntry>, t: Tree, tombstones: seq<Tombstone>, done: set<Comps>)
    requires ProperTree(t)
  {
    && DistinctPaths(files)
    && (forall e :: e in files ==> Origin(t, tombstones, done, e))
    && (forall c :: c in done && c in t && Captured(t, tombstones, c) ==>
          ContentAt(files, Join(c)) == Some(HashBytes(t[c])))
  }

  ghost predicate Origin(t: Tree, tombstones: seq<Tombstone>, done: set<Comps>, e: FileEntry)
    requires ProperTree(t)
  {
    exists c :: c in t && c in done && Captured(t, tombstones, c) && Join(c) == e.path && Describes(e, t[c])
  }

  predicate Describes(e: FileEntry, data: Bytes) {
    e.size == |data| && e.content == HashBytes(data) && e.chunks == ChunksOf(data)
  }

  ghost predicate ChunksPresent(objects: map<Hash, Bytes>, files: seq<FileEntry>) {
    forall e, ch :: e in files && ch in e.chunks ==> ch in objects
  }

  /** The entry's chunks can be read and add up to its content. */
  ghost predicate Restores(objects: map<Hash, Bytes>, e: FileEntry) {
    Assemble(objects, e.chunks).Ok? && HashBytes(Assemble(objects, e.chunks).value) == e.content
  }

  /** HEAD names a stored manifest all of whose chunks are present. */
  ghost predicate HeadSound(d: Disk) {
    d.head.Some? ==>
      && d.head.value in d.manifests
      && var m := ParseManifest(d.manifests[d.head.value]);
         m.Some? ==> ChunksPresent(d.objects, m.value.files)
  }

  lemma RestoresMonotone(d: Disk, d': Disk, e: FileEntry)
    requires Grows(d, d') && Restores(d.objects, e)
    ensures Restores(d'.objects, e)
  {
    AssembleMonotone(d.objects, d'.objects, e.chunks);
  }

  /** `d'` is `d` with some more objects, all of them among `source`. */
  ghost predicate Gathers(d: Disk, d': Disk, source: set<Hash>) {
    && Grows(d, d') && d'.manifests == d.manifests
    && forall h :: h in d'.objects ==> h in d.objects || h in source
  }

  ghost predicate AllGather(d: Disk, trail: seq<Disk>, n: nat, source: set<Hash>) {
    forall i :: n <= i < |trail| ==> Gathers(d, trail[i], source)
  }

  ghost predicate HasAll(d: Disk, hashes: seq<Hash>) { forall h :: h in hashes ==> h in d.objects }

  lemma StoredObjectGathers(d: Disk, d': Disk, data: Bytes, source: set<Hash>)
    requires Gathers(d, d', source) && HashBytes(data) in source
    ensures Gathers(d, WithObject(d', data), source)
    ensures HashBytes(data) in WithObject(d', data).objects
    ensures Grows(d', WithObject(d', data))
  {
  }

  ghost function Elements<T>(s: seq<T>): set<T> { set x | x in s }

  /** A stretch of the file has been cut and stored; `rest` is still to come. */
  ghost predicate ChunkedSoFar(d0: Disk, d: Disk, all: seq<Hash>, chunks: seq<Hash>, rest: Bytes) {
    && chunks + ChunksOf(rest) == all
    && HasAll(d, chunks) && Gathers(d0, d, Elements(all))
  }

  lemma ChunkedMore(d0: Disk, d: Disk, all: seq<Hash>, chunks: seq<Hash>, rest: Bytes, piece: Bytes, more: Bytes)
    requires ChunkedSoFar(d0, d, all, chunks, rest) && ChunksOf(rest) == [HashBytes(piece)] + ChunksOf(more)
    ensures ChunkedSoFar(d0, WithObject(d, piece), all, chunks + [HashBytes(piece)], more)
  {
    Shift(chunks, HashBytes(piece), ChunksOf(more), all);
    StoredObjectGathers(d0, d, piece, Elements(all));
  }

  lemma Shift<T>(front: seq<T>, x: T, back: seq<T>, all: seq<T>)
    requires front + ([x] + back) == all
    ensures (front + [x]) + back == all && x in Elements(all)
  {
    assert all[|front|] == x;
  }

  /** Cut off and store the next chunk of `rest`; its hash and its length. */
  method StoreChunk(store: Store, rest: Bytes, ghost d0: Disk, ghost all: seq<Hash>, ghost chunks: seq<Hash>, ghost start: nat)
    returns (r: Result<Hash>, n: nat)
    requires store.Valid() && rest != [] && start <= |store.trail|
    requires ChunkedSoFar(d0, store.Now(), all, chunks, rest) && AllGather(d0, store.trail, start, Elements(all))
    modifies store
    ensures store.Valid() && old(store.trail) <= store.trail && n == PieceLength(rest)
    ensures Gathers(d0, store.Now(), Elements(all)) && AllGather(d0, store.trail, start, Elements(all))
    ensures r.Ok? ==> r.value == HashBytes(rest[..n]) && ChunkedSoFar(d0, store.Now(), all, chunks + [r.value], rest[n..])
    ensures !store.faulty ==> r.Ok?
  {
    n := PieceLength(rest);
    var piece := rest[..n];
    ghost var before := store.Now();
    ChunkedMore(d0, before, all, chunks, rest, piece, rest[n..]);
    r := store.PutObject(piece);
    assert r.Ok? ==> store.Now() == WithObject(before, piece);
  }

  /** Cut `data` into chunks and store them. */
  method ChunkFile(store: Store, data: Bytes) returns (r: Result<(Hash, seq<Hash>, nat)>)
    requires store.Valid()
    modifies store
    ensures store.Valid() && old(store.trail) <= store.trail
    ensures AllGather(old(store.Now()), store.trail, |old(store.trail)|, Elements(ChunksOf(data)))
    ensures Gathers(old(store.Now()), store.Now(), Elements(ChunksOf(data)))
    ensures r.Ok? ==> r.value == (HashBytes(data), ChunksOf(data), |data|) && HasAll(store.Now(), ChunksOf(data))
    ensures !store.faulty ==> r.Ok?
  {
    ghost var d0, all, start := store.Now(), ChunksOf(data), |store.trail|;
    var hashed: Bytes, rest := [], data;
    var chunks: seq<Hash> := [];
    while rest != []
      invariant hashed + rest == data
      invariant store.Valid() && old(store.trail) <= store.trail
      invariant ChunkedSoFar(d0, store.Now(), all, chunks, rest)
      invariant AllGather(d0, store.trail, start, Elements(all))
      decreases |rest|
    {
      var stored, n := StoreChunk(store, rest, d0, all, chunks, start);
      if stored.Err? {
        return Err(stored.error);
      }
      ConcatAssociates(hashed, rest[..n], rest[n..]);
      SplitAt(rest, n);
      hashed := hashed + rest[..n];
      chunks := chunks + [stored.value];
      rest := rest[n..];
    }
    assert hashed == data && chunks == all;
    return Ok((HashBytes(hashed), chunks, |hashed|));
  }

  // ---------------------------------------------------------------------------------------------
  // create
  // ---------------------------------------------------------------------------------------------

  lemma FaithfulSkip(files: seq<FileEntry>, t: Tree, tombstones: seq<Tombstone>, done: set<Comps>, c: Comps)
    requires ProperTree(t) && Faithful(files, t, tombstones, done)
    requires c in t && !Captured(t, tombstones, c)
    ensures Faithful(files, t, tombstones, done + {c})
  {
    forall e | e in files ensures Origin(t, tombstones, done + {c}, e) {
      assert Origin(t, tombstones, done, e);
    }
  }

  lemma FaithfulAdd(files: seq<FileEntry>, t: Tree, tombstones: seq<Tombstone>, done: set<Comps>, c: Comps, e: FileEntry)
    requires ProperTree(t) && Faithful(files, t, tombstones, done)
    requires c in t && c !in done && Captured(t, tombstones, c)
    requires e.path == Join(c) && Describes(e, t[c])
    ensures Faithful(files + [e], t, tombstones, done + {c})
  {
    var longer, done' := files + [e], done + {c};
    forall f | f in files ensures f.path != e.path && Origin(t, tombstones, done', f) {
      assert Origin(t, tombstones, done, f);
      var d :| d in t && d in done && Captured(t, tombstones, d) && Join(d) == f.path && Describes(f, t[d]);
      if f.path == e.path { JoinInjective(c, d); }
    }
    assert Origin(t, tombstones, done', e);
    forall d | d in done' && d in t && Captured(t, tombstones, d)
      ensures ContentAt(longer, Join(d)) == Some(HashBytes(t[d]))
    {
      assert longer[..|files|] == files;
      if d != c && Join(d) == e.path { JoinInjective(c, d); }
    }
  }

  /** The manifest `m` records the tree `t`. */
  ghost predicate RecordsTree(m: Manifest, t: Tree, tombstones: seq<Tombstone>)
    requires ProperTree(t)
  {
    && Faithful(m.files, t, tombstones, t.Keys)
    && m.version == 3
    && forall e :: e in m.files ==> AcceptableEntry(e)
  }

  /** `d'` is `d` with the finished snapshot `m` in it: the manifest under its own id, all its chunks,
      and HEAD on it. */
  ghost predicate NamesSnapshot(d: Disk, d': Disk, id: Hash, m: Manifest) {
    && Grows(d, d'.(head := d.head)) && d'.manifests.Keys == d.manifests.Keys + {id}
    && d'.head == Some(id) && id in d'.manifests && id == HashBytes(SerializeManifest(m))
    && ChunksPresent(d'.objects, m.files)
  }

  lemma GrowMore(d0: Disk, d1: Disk, d2: Disk)
    requires Grows(d0, d1) && Grows(d1, d2)
    ensures Grows(d0, d2)
    ensures Intact(d0) ==> Intact(d1)
  {
  }

  /** A recorded tree can be rebuilt from any intact store that has the chunks. */
  lemma RecordedRestores(m: Manifest, t: Tree, tombstones: seq<Tombstone>, d: Disk)
    requires CollisionFree() && Intact(d)
    requires ProperTree(t) && RecordsTree(m, t, tombstones) && ChunksPresent(d.objects, m.files)
    ensures forall e :: e in m.files ==> Restores(d.objects, e)
  {
    forall e | e in m.files ensures Restores(d.objects, e) {
      assert Origin(t, tombstones, t.Keys, e);
      var c :| c in t && Captured(t, tombstones, c) && Join(c) == e.path && Describes(e, t[c]);
      ChunksAssemble(d, t[c]);
    }
  }

  /** Every file a snapshot opens has a path that fits in a manifest. */
  ghost predicate Recordable(t: Tree, tombstones: seq<Tombstone>)
    requires ProperTree(t)
  {
    forall c :: c in t ==> RecordableAt(t, tombstones, c)
  }

  ghost predicate RecordableAt(t: Tree, tombstones: seq<Tombstone>, c: Comps)
    requires c != []
  {
    Walked(t, tombstones, c) ==> |Join(c)| <= MAX_PATH
  }

  ghost predicate HoldsFile(d: Disk, t: Tree, tombstones: seq<Tombstone>, c: Comps)
    requires c in t && c != []
  {
    Walked(t, tombstones, c) ==> HasAll(d, ChunksOf(t[c]))
  }

  lemma WalkedSource(t: Tree, tombstones: seq<Tombstone>, c: Comps)
    requires ProperTree(t) && c in t && Walked(t, tombstones, c)
    ensures Elements(ChunksOf(t[c])) <= WalkedChunks(t, tombstones)
  {
  }

  /** One step of the walk: the entry of `c`, or nothing when `c` is skipped.  The content tombstone is
      consulted after the chunks were stored, so purged bytes found under a new name enter the store
      again although no manifest will name them. */
  method CaptureOne(store: Store, t: Tree, stamps: Stamps, tombstones: seq<Tombstone>, c: Comps)
    returns (r: Result<Option<FileEntry>>)
    requires store.Valid() && ProperTree(t) && c in t
    modifies store
    ensures store.Valid() && old(store.trail) <= store.trail
    ensures AllGather(old(store.Now()), store.trail, |old(store.trail)|, WalkedChunks(t, tombstones))
    ensures Gathers(old(store.Now()), store.Now(), WalkedChunks(t, tombstones))
    ensures r.Ok? ==> (r.value.Some? <==> Captured(t, tombstones, c)) && HoldsFile(store.Now(), t, tombstones, c)
    ensures r.Ok? ==> (r.value.Some? <==> Recorded(t, tombstones, c))
    ensures r.Ok? && r.value.Some? ==>
              && r.value.value.path == Join(c) && Describes(r.value.value, t[c]) && AcceptableEntry(r.value.value)
              && (r.value.value.mtimeSecs, r.value.value.mtimeNanos) == Stamp(stamps, c)
    ensures r.Ok? ==> RecordableAt(t, tombstones, c)
    ensures !store.faulty && RecordableAt(t, tombstones, c) ==> r.Ok?
  {
    RecordedIff(t, tombstones, c);
    var rel := Join(c);
    if IsExcluded(c) || IsIgnored(t, rel) {
      return Ok(None);
    }
    if exists b :: b in tombstones && b.path == rel {
      return Ok(None);
    }
    SanitizeJoin(c);
    WalkedSource(t, tombstones, c);
    if Sanitize(rel).Err? {
      return Err(UnsafePath);
    }
    var chunked :- ChunkFile(store, t[c]);
    if exists b :: b in tombstones && b.content == chunked.0 {
      return Ok(None);
    }
    var stamp := if c in stamps then stamps[c] else (0, 0);
    return Ok(Some(FileEntry(rel, 0, chunked.2, stamp.0, stamp.1, chunked.0, chunked.1)));
  }

  /** The walk over the tree, visiting the files in any order. */
  method CaptureAll(store: Store, t: Tree, stamps: Stamps) returns (r: Result<seq<FileEntry>>)
    requires store.Valid() && ProperTree(t)
    modifies store
    ensures store.Valid() && old(store.trail) <= store.trail
    ensures AllGather(old(store.Now()), store.trail, |old(store.trail)|, WalkedChunks(t, old(store.tombstones)))
    ensures Gathers(old(store.Now()), store.Now(), WalkedChunks(t, old(store.tombstones)))
    ensures r.Ok? ==> Faithful(r.value, t, store.tombstones, t.Keys) && forall e :: e in r.value ==> AcceptableEntry(e)
    ensures r.Ok? ==> forall c :: c in t ==> (LastAt(r.value, Join(c)).Some? <==> Recorded(t, store.tombstones, c))
    ensures r.Ok? ==> forall c :: c in t ==> HoldsFile(store.Now(), t, store.tombstones, c)
    ensures r.Ok? ==> Recordable(t, store.tombstones)
    ensures !store.faulty && Recordable(t, store.tombstones) ==> r.Ok?
  {
    ghost var d0, source := store.Now(), WalkedChunks(t, store.tombstones);
    var tombstones := store.tombstones;
    var files: seq<FileEntry> := [];
    var todo := t.Keys;
    while todo != {}
      invariant todo <= t.Keys
      invariant store.Valid() && old(store.trail) <= store.trail
      invariant AllGather(d0, store.trail, |old(store.trail)|, source) && Gathers(d0, store.Now(), source)
      invariant Faithful(files, t, tombstones, t.Keys - todo)
      invariant forall c :: c in t && c !in todo ==> HoldsFile(store.Now(), t, tombstones, c) && RecordableAt(t, tombstones, c)
      invariant forall e :: e in files ==> AcceptableEntry(e)
    {
      var c :| c in todo;
      ghost var done, before, beforeTrail := t.Keys - todo, store.Now(), store.trail;
      todo := todo - {c};
      assert t.Keys - todo == done + {c};
      var captured := CaptureOne(store, t, stamps, tombstones, c);
      GatherMore(d0, before, store.Now(), source);
      AllGatherMore(d0, before, store.trail, |old(store.trail)|, |beforeTrail|, source);
      if captured.Err? {
        return Err(captured.error);
      }
      if captured.value.Some? {
        FaithfulAdd(files, t, tombstones, done, c, captured.value.value);
        files := files + [captured.value.value];
      } else {
        FaithfulSkip(files, t, tombstones, done, c);
      }
    }
    assert t.Keys - todo == t.Keys;
    FaithfulRecords(files, t, tombstones);
    return Ok(files);
  }

  lemma FaithfulRecords(files: seq<FileEntry>, t: Tree, tombstones: seq<Tombstone>)
    requires ProperTree(t) && Faithful(files, t, tombstones, t.Keys)
    ensures forall c :: c in t ==> (LastAt(files, Join(c)).Some? <==> Recorded(t, tombstones, c))
  {
    forall c | c in t ensures LastAt(files, Join(c)).Some? <==> Recorded(t, tombstones, c) {
      RecordedIff(t, tombstones, c);
      if LastAt(files, Join(c)).Some? {
        assert Origin(t, tombstones, t.Keys, LastAt(files, Join(c)).value);
        var d :| d in t && Captured(t, tombstones, d) && Join(d) == Join(c);
        JoinInjective(c, d);
      }
    }
  }

  lemma GatherMore(d0: Disk, d1: Disk, d2: Disk, source: set<Hash>)
    requires Gathers(d0, d1, source) && Gathers(d1, d2, source)
    ensures Gathers(d0, d2, source)
  {
  }

  lemma AllGatherMore(d0: Disk, d1: Disk, trail: seq<Disk>, n: nat, k: nat, source: set<Hash>)
    requires n <= k <= |trail| && Gathers(d0, d1, source)
    requires forall i :: n <= i < k ==> Gathers(d0, trail[i], source)
    requires AllGather(d1, trail, k, source)
    ensures AllGather(d0, trail, n, source)
  {
    forall i | n <= i < |trail| ensures Gathers(d0, trail[i], source) {
      if k <= i { GatherMore(d0, d1, trail[i], source); }
    }
  }

  lemma CapturedChunksPresent(files: seq<FileEntry>, t: Tree, tombstones: seq<Tombstone>, d: Disk)
    requires ProperTree(t) && Faithful(files, t, tombstones, t.Keys)
    requires forall c :: c in t ==> HoldsFile(d, t, tombstones, c)
    ensures ChunksPresent(d.objects, files)
    ensures forall h :: h in WalkedChunks(t, tombstones) ==> h in d.objects
  {
    forall e, ch | e in files && ch in e.chunks ensures ch in d.objects {
      assert Origin(t, tombstones, t.Keys, e);
      var c :| c in t && Captured(t, tombstones, c) && Join(c) == e.path && Describes(e, t[c]);
      assert HoldsFile(d, t, tombstones, c);
    }
    forall h | h in WalkedChunks(t, tombstones) ensures h in d.objects {
      var c :| c in t && Walked(t, tombstones, c) && h in ChunksOf(t[c]);
      assert HoldsFile(d, t, tombstones, c);
    }
  }

  /** A snapshot of `t` cut short: some of its chunks, and the manifest `m` only once they are all there. */
  ghost predicate CutShort(d: Disk, d': Disk, m: Manifest, t: Tree)
    requires ProperTree(t)
  {
    && Grows(d, d')
    && (forall h :: h in d'.objects ==> h in d.objects || h in WalkedChunks(t, d.tombstones))
    && (d'.manifests != d.manifests ==>
          && d'.manifests == WithManifest(d, SerializeManifest(m)).manifests
          && RecordsTree(m, t, d.tombstones) && ChunksPresent(d'.objects, m.files))
  }

  /** A finished snapshot of `t`: `CutShort` is over, HEAD has moved, and exactly the chunks of the files
      that were opened have come to the store. */
  ghost predicate Snapped(d: Disk, d': Disk, id: Hash, m: Manifest, t: Tree)
    requires ProperTree(t)
  {
    && RecordsTree(m, t, d.tombstones) && m.parent == d.head
    && NamesSnapshot(d, d', id, m)
    && forall h :: h in d'.objects <==> h in d.objects || h in WalkedChunks(t, d.tombstones)
  }

  /** Store the manifest, then move HEAD to it. */
  method Commit(store: Store, m: Manifest, ghost t: Tree) returns (r: Result<Hash>)
    requires store.Valid() && ChunksPresent(store.objects, m.files)
    requires ProperTree(t) && RecordsTree(m, t, store.tombstones)
    modifies store
    ensures store.Valid() && old(store.trail) <= store.trail && store.objects == old(store.objects)
    ensures r.Ok? ==> NamesSnapshot(old(store.Now()), store.Now(), r.value, m)
    ensures r.Ok? && CollisionFree() && Intact(old(store.Now())) ==> store.manifests[r.value] == SerializeManifest(m)
    ensures r.Err? ==> CutShort(old(store.Now()), store.Now(), m, t)
    ensures forall i :: |old(store.trail)| <= i < |store.trail| ==>
              CutShort(old(store.Now()), store.trail[i], m, t) || (r.Ok? && store.trail[i] == store.Now())
    ensures !store.faulty ==> r.Ok?
  {
    var id :- store.PutManifest(SerializeManifest(m));
    ghost var stored := store.Now();
    assert CutShort(old(store.Now()), stored, m, t);
    var moved :- store.SetHead(Some(id));
    assert store.Now() == stored.(head := Some(id));
    return Ok(id);
  }

  lemma GatheredCut(d0: Disk, d1: Disk, d2: Disk, m: Manifest, t: Tree)
    requires ProperTree(t) && Gathers(d0, d1, WalkedChunks(t, d0.tombstones)) && CutShort(d1, d2, m, t)
    ensures CutShort(d0, d2, m, t)
  {
    GrowMore(d0, d1, d2);
  }

  lemma GatheredSnapped(d0: Disk, d1: Disk, d2: Disk, id: Hash, m: Manifest, source: set<Hash>)
    requires Gathers(d0, d1, source) && NamesSnapshot(d1, d2, id, m)
    ensures NamesSnapshot(d0, d2, id, m)
  {
    GrowMore(d0, d1, d2.(head := d1.head));
  }

  /** Record the tree `t` and move HEAD to the new manifest. */
  method Create(store: Store, t: Tree, stamps: Stamps, message: string, actor: Option<string>, now: nat)
    returns (r: Result<Hash>, ghost m: Manifest)
    requires store.Valid() && ProperTree(t)
    modifies store
    ensures store.Valid() && old(store.trail) <= store.trail
    ensures r.Ok? ==> Snapped(old(store.Now()), store.Now(), r.value, m, t)
    ensures r.Ok? ==> m.actor == actor && m.message == message && m.timestamp == now
    ensures r.Ok? ==> forall c :: c in t ==> (LastAt(m.files, Join(c)).Some? <==> Recorded(t, old(store.tombstones), c))
    ensures r.Ok? && CollisionFree() && Intact(old(store.Now())) ==> store.manifests[r.value] == SerializeManifest(m)
    ensures r.Err? ==> CutShort(old(store.Now()), store.Now(), m, t)
    ensures forall i :: |old(store.trail)| <= i < |store.trail| ==>
              CutShort(old(store.Now()), store.trail[i], m, t) || (r.Ok? && store.trail[i] == store.Now())
    ensures r.Ok? ==> Recordable(t, old(store.tombstones))
    ensures !store.faulty && Recordable(t, old(store.tombstones)) ==> r.Ok?
  {
    m := Manifest(MANIFEST_VERSION, None, 0, "", [], [], None);
    ghost var d0 := store.Now();
    var files :- CaptureAll(store, t, stamps);
    ghost var d1, gathered := store.Now(), |store.trail|;
    CapturedChunksPresent(files, t, store.tombstones, d1);
    var manifest := Manifest(MANIFEST_VERSION, store.head, now, message, files, [], actor);
    m := manifest;
    r := Commit(store, manifest, t);
    if r.Ok? {
      GatheredSnapped(d0, d1, store.Now(), r.value, m, WalkedChunks(t, d0.tombstones));
    } else {
      GatheredCut(d0, d1, store.Now(), m, t);
    }
    forall i | gathered <= i < |store.trail|
      ensures CutShort(d0, store.trail[i], m, t) || (r.Ok? && store.trail[i] == store.Now())
    {
      if CutShort(d1, store.trail[i], m, t) { GatheredCut(d0, d1, store.trail[i], m, t); }
    }
  }

  /** Crash points of `Create`: HEAD always names a stored manifest whose chunks are all there. */
  lemma CreateKeepsHeadSound(d: Disk, d': Disk, id: Hash, m: Manifest, t: Tree)
    requires CollisionFree() && ManifestRoundTrip() && Intact(d) && HeadSound(d) && ProperTree(t)
    requires CutShort(d, d', m, t) || Snapped(d, d', id, m, t)
    ensures HeadSound(d')
  {
    if !CutShort(d, d', m, t) {
      assert HashBytes(d'.manifests[id]) == id;
      assert d'.manifests[id] == SerializeManifest(m);
    }
  }
}
