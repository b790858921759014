/** The content-addressed store (`store.rs`) and what a manifest must satisfy to be loaded from it. */
module Storage {
  import opened Core
  import opened Paths

  const CDC_MIN := 16 * 1024
  const CDC_MAX := 256 * 1024
  const MAX_OBJECT_SIZE := CDC_MAX
  const MAX_MANIFEST_BYTES := 256 * 1024 * 1024
  const MANIFEST_VERSION := 3
  const MIN_MANIFEST_VERSION := 2
  const MAX_MANIFEST_FILES := 2_000_000
  const MAX_MANIFEST_CHUNKS := 8_000_000

  datatype Tombstone = Tombstone(path: string, content: Hash)

  /** Everything the fabric directory holds that this model speaks of. */
  datatype Disk = Disk(
    objects: map<Hash, Bytes>,
    manifests: map<Hash, Bytes>,
    head: Option<Hash>,
    tombstones: seq<Tombstone>)

  /** Every stored value sits under its own hash. */
  ghost predicate Intact(d: Disk) {
    && (forall h :: h in d.objects ==> HashBytes(d.objects[h]) == h)
    && (forall h :: h in d.manifests ==> HashBytes(d.manifests[h]) == h)
  }

  ghost predicate PathPurged(tombstones: seq<Tombstone>, path: string) {
    exists t :: t in tombstones && t.path == path
  }

  ghost predicate ContentPurged(tombstones: seq<Tombstone>, content: Hash) {
    exists t :: t in tombstones && t.content == content
  }

  // ---------------------------------------------------------------------------------------------
  // Manifests
  // ---------------------------------------------------------------------------------------------

  function TotalChunks(files: seq<FileEntry>): nat {
    if files == [] then 0 else TotalChunks(files[..|files| - 1]) + |files[|files| - 1].chunks|
  }

  predicate AcceptableEntry(f: FileEntry) {
    Sanitize(f.path).Ok? && (f.chunks == [] ==> f.size == 0)
  }

  /** What `validate` lets through. */
  predicate Acceptable(m: Manifest) {
    && 2 <= m.version <= 3
    && |m.files| <= 2_000_000
    && TotalChunks(m.files) <= 8_000_000
    && forall f :: f in m.files ==> AcceptableEntry(f)
  }

  lemma {:induction false} TotalChunksMonotone(files: seq<FileEntry>, n: nat)
    requires n <= |files|
    ensures TotalChunks(files[..n]) <= TotalChunks(files)
  {
    if n < |files| {
      TotalChunksMonotone(files[..|files| - 1], n);
      assert files[..|files| - 1][..n] == files[..n];
    } else {
      assert files[..n] == files;
    }
  }

  method Validate(m: Manifest) returns (r: Result<()>)
    ensures r.Ok? <==> Acceptable(m)
  {
    if m.version > MANIFEST_VERSION || m.version < MIN_MANIFEST_VERSION {
      return Err(Corrupt);
    }
    if |m.files| > MAX_MANIFEST_FILES {
      return Err(Corrupt);
    }
    var total := 0;
    for n := 0 to |m.files|
      invariant total == TotalChunks(m.files[..n]) <= MAX_MANIFEST_CHUNKS
      invariant forall f :: f in m.files[..n] ==> AcceptableEntry(f)
    {
      var f := m.files[n];
      assert m.files[..n + 1][..n] == m.files[..n];
      TotalChunksMonotone(m.files, n + 1);
      assert f in m.files;
      if Sanitize(f.path).Err? {
        return Err(UnsafePath);
      }
      total := total + |f.chunks|;
      if total > MAX_MANIFEST_CHUNKS {
        return Err(Corrupt);
      }
      if f.chunks == [] && f.size > 0 {
        return Err(Corrupt);
      }
    }
    assert m.files[..|m.files|] == m.files;
    return Ok(());
  }

  function Deserialize(data: Bytes): Result<Manifest> {
    if |data| > MAX_MANIFEST_BYTES then Err(Corrupt)
    else match ParseManifest(data)
      case None => Err(Corrupt)
      case Some(m) => Ok(m)
  }

  /** `snapshot::load`: parse and validate the manifest stored under `id`. */
  function Load(d: Disk, id: Hash): Result<Manifest> {
    if id !in d.manifests then Err(MissingObject)
    else
      var m :- Deserialize(d.manifests[id]);
      if Acceptable(m) then Ok(m) else Err(Corrupt)
  }

  /** `get_object`: bounded and verified on every read. */
  function ReadObject(objects: map<Hash, Bytes>, h: Hash): (r: Result<Bytes>)
    ensures r.Ok? ==> HashBytes(r.value) == h && |r.value| <= 262_144
  {
    if h !in objects then Err(MissingObject)
    else if |objects[h]| > MAX_OBJECT_SIZE then Err(Corrupt)
    else if HashBytes(objects[h]) != h then Err(Corrupt)
    else Ok(objects[h])
  }

  // ---------------------------------------------------------------------------------------------
  // Chunks
  // ---------------------------------------------------------------------------------------------

  /** The bytes the chunk list stands for, if every chunk can be read. */
  function Assemble(objects: map<Hash, Bytes>, chunks: seq<Hash>): Result<Bytes> {
    if chunks == [] then Ok([])
    else
      var front :- Assemble(objects, chunks[..|chunks| - 1]);
      var last :- ReadObject(objects, chunks[|chunks| - 1]);
      Ok(front + last)
  }

  lemma {:induction false} AssembleConcat(objects: map<Hash, Bytes>, a: seq<Hash>, b: seq<Hash>)
    requires Assemble(objects, a).Ok? && Assemble(objects, b).Ok?
    ensures Assemble(objects, a + b) == Ok(Assemble(objects, a).value + Assemble(objects, b).value)
  {
    if b == [] {
      assert a + b == a && Assemble(objects, a).value + [] == Assemble(objects, a).value;
    } else {
      var init, last := b[..|b| - 1], b[|b| - 1];
      assert (a + b)[..|a + b| - 1] == a + init;
      AssembleConcat(objects, a, init);
      ConcatAssociates(Assemble(objects, a).value, Assemble(objects, init).value, ReadObject(objects, last).value);
    }
  }

  /** Reading a chunk list only depends on the chunks in it. */
  lemma {:induction false} AssembleSame(objects: map<Hash, Bytes>, objects': map<Hash, Bytes>, chunks: seq<Hash>)
    requires forall h :: h in chunks ==> ReadObject(objects', h) == ReadObject(objects, h)
    ensures Assemble(objects', chunks) == Assemble(objects, chunks)
  {
    if chunks != [] {
      AssembleSame(objects, objects', chunks[..|chunks| - 1]);
    }
  }

  /** What can be read has all its chunks there. */
  lemma {:induction false} AssembledChunks(objects: map<Hash, Bytes>, chunks: seq<Hash>)
    requires Assemble(objects, chunks).Ok?
    ensures forall h :: h in chunks ==> ReadObject(objects, h).Ok?
  {
    if chunks != [] {
      AssembledChunks(objects, chunks[..|chunks| - 1]);
    }
  }

  lemma {:induction false} AssembleMonotone(objects: map<Hash, Bytes>, objects': map<Hash, Bytes>, chunks: seq<Hash>)
    requires forall h :: h in objects ==> h in objects' && objects'[h] == objects[h]
    requires Assemble(objects, chunks).Ok?
    ensures Assemble(objects', chunks) == Assemble(objects, chunks)
  {
    if chunks != [] {
      AssembleMonotone(objects, objects', chunks[..|chunks| - 1]);
    }
  }

  // ---------------------------------------------------------------------------------------------
  // The store itself
  // ---------------------------------------------------------------------------------------------

  function WithObject(d: Disk, data: Bytes): Disk {
    var h := HashBytes(data);
    if h in d.objects then d else d.(objects := d.objects[h := data])
  }

  function WithManifest(d: Disk, data: Bytes): Disk {
    var h := HashBytes(data);
    if h in d.manifests then d else d.(manifests := d.manifests[h := data])
  }

  /** `d'` has everything `d` has, unchanged, every newcomer sits under its own hash, and HEAD and the
      tombstones are the same. */
  ghost predicate Grows(d: Disk, d': Disk) {
    && (forall h :: h in d.objects ==> h in d'.objects && d'.objects[h] == d.objects[h])
    && (forall h :: h in d.manifests ==> h in d'.manifests && d'.manifests[h] == d.manifests[h])
    && (forall h :: h in d'.objects && h !in d.objects ==> HashBytes(d'.objects[h]) == h)
    && (forall h :: h in d'.manifests && h !in d.manifests ==> HashBytes(d'.manifests[h]) == h)
    && d'.head == d.head && d'.tombstones == d.tombstones
  }

  /** Every state recorded from position `n` on has grown out of `d`. */
  ghost predicate AllGrow(d: Disk, trail: seq<Disk>, n: nat) {
    forall i :: n <= i < |trail| ==> Grows(d, trail[i])
  }

  /** The fabric directory.  Each method is one atomic step on disk; `trail` lists the states the
      directory has passed through, so a claim about all of it is a claim about every crash point.
      On a `faulty` device any write may fail, leaving the directory as it was. */
  class Store {
    var objects: map<Hash, Bytes>
    var manifests: map<Hash, Bytes>
    var head: Option<Hash>
    var tombstones: seq<Tombstone>
    const faulty: bool
    ghost var trail: seq<Disk>

    ghost function Now(): Disk
      reads this
    {
      Disk(objects, manifests, head, tombstones)
    }

    ghost predicate Valid()
      reads this
    {
      trail != [] && trail[|trail| - 1] == Now()
    }

    constructor (d: Disk, faulty: bool)
      ensures Valid() && Now() == d && this.faulty == faulty
    {
      objects, manifests, head, tombstones := d.objects, d.manifests, d.head, d.tombstones;
      this.faulty := faulty;
      trail := [d];
    }

    method PutObject(data: Bytes) returns (r: Result<Hash>)
      requires Valid()
      modifies this
      ensures Valid() && trail == old(trail) + [Now()]
      ensures Now() == if r.Ok? then WithObject(old(Now()), data) else old(Now())
      ensures r.Ok? ==> r.value == HashBytes(data)
      ensures !faulty ==> r.Ok?
    {
      var h := HashBytes(data);
      var fails := Fault(faulty);
      if h !in objects {
        if fails {
          trail := trail + [Now()];
          return Err(Io);
        }
        objects := objects[h := data];
      }
      trail := trail + [Now()];
      return Ok(h);
    }

    /** Bytes that arrive under a claimed hash are checked before they are stored. */
    method PutObjectAs(h: Hash, data: Bytes) returns (r: Result<()>)
      requires Valid()
      modifies this
      ensures Valid() && trail == old(trail) + [Now()]
      ensures r.Ok? ==> HashBytes(data) == h
      ensures Now() == if r.Ok? then WithObject(old(Now()), data) else old(Now())
      ensures !faulty && HashBytes(data) == h ==> r.Ok?
    {
      if HashBytes(data) != h {
        trail := trail + [Now()];
        return Err(Corrupt);
      }
      var stored := PutObject(data);
      if stored.Err? {
        return Err(stored.error);
      }
      return Ok(());
    }

    method PutManifest(data: Bytes) returns (r: Result<Hash>)
      requires Valid()
      modifies this
      ensures Valid() && trail == old(trail) + [Now()]
      ensures Now() == if r.Ok? then WithManifest(old(Now()), data) else old(Now())
      ensures r.Ok? ==> r.value == HashBytes(data)
      ensures !faulty ==> r.Ok?
    {
      var h := HashBytes(data);
      var fails := Fault(faulty);
      if h !in manifests {
        if fails {
          trail := trail + [Now()];
          return Err(Io);
        }
        manifests := manifests[h := data];
      }
      trail := trail + [Now()];
      return Ok(h);
    }

    method PutManifestAs(h: Hash, data: Bytes) returns (r: Result<()>)
      requires Valid()
      modifies this
      ensures Valid() && trail == old(trail) + [Now()]
      ensures r.Ok? ==> HashBytes(data) == h
      ensures Now() == if r.Ok? then WithManifest(old(Now()), data) else old(Now())
      ensures !faulty && HashBytes(data) == h ==> r.Ok?
    {
      if HashBytes(data) != h {
        trail := trail + [Now()];
        return Err(Corrupt);
      }
      var stored := PutManifest(data);
      if stored.Err? {
        return Err(stored.error);
      }
      return Ok(());
    }

    method SetHead(id: Option<Hash>) returns (r: Result<()>)
      requires Valid()
      modifies this
      ensures Valid() && trail == old(trail) + [Now()]
      ensures Now() == if r.Ok? then old(Now()).(head := id) else old(Now())
      ensures !faulty ==> r.Ok?
    {
      var fails := Fault(faulty);
      if !fails {
        head := id;
      }
      trail := trail + [Now()];
      return if fails then Err(Io) else Ok(());
    }

    /** Unlink one object file, if it exists. */
    method DeleteObject(h: Hash) returns (r: Result<bool>)
      requires Valid()
      modifies this
      ensures Valid() && trail == old(trail) + [Now()]
      ensures r.Ok? ==> r.value == (h in old(objects))
      ensures Now() == if r.Ok? then old(Now()).(objects := old(objects) - {h}) else old(Now())
      ensures !faulty ==> r.Ok?
    {
      var fails := Fault(faulty);
      if h !in objects {
        assert objects - {h} == objects;
        trail := trail + [Now()];
        return Ok(false);
      }
      if !fails {
        objects := objects - {h};
      }
      trail := trail + [Now()];
      return if fails then Err(Io) else Ok(true);
    }

    /** Something else writes into the fabric directory: anything may be in it afterwards. */
    method Clobber()
      requires Valid()
      modifies this
      ensures Valid() && trail == old(trail) + [Now()]
    {
      objects, manifests, head, tombstones := *, *, *, *;
      trail := trail + [Now()];
    }

    method AppendTombstone(t: Tombstone) returns (r: Result<()>)
      requires Valid()
      modifies this
      ensures Valid() && trail == old(trail) + [Now()]
      ensures Now() == if r.Ok? then old(Now()).(tombstones := old(tombstones) + [t]) else old(Now())
      ensures !faulty ==> r.Ok?
    {
      var fails := Fault(faulty);
      if !fails {
        tombstones := tombstones + [t];
      }
      trail := trail + [Now()];
      return if fails then Err(Io) else Ok(());
    }
  }

  // ---------------------------------------------------------------------------------------------
  // The HEAD chain
  // ---------------------------------------------------------------------------------------------

  const MAX_CHAIN := 2_000_000

  /** `chain`, oldest first, is the ancestry of `id` as stored in `d`. */
  ghost predicate IsChain(d: Disk, id: Option<Hash>, chain: seq<Manifest>)
    decreases |chain|
  {
    match id
    case None => chain == []
    case Some(h) =>
      && chain != []
      && Load(d, h) == Ok(chain[|chain| - 1])
      && IsChain(d, chain[|chain| - 1].parent, chain[..|chain| - 1])
  }

  /** `newer` leads from `id` down to `rest`, which is still to be walked. */
  ghost predicate Leads(d: Disk, id: Option<Hash>, newer: seq<Manifest>, rest: Option<Hash>)
    decreases |newer|
  {
    if newer == [] then rest == id
    else
      && id.Some? && Load(d, id.value) == Ok(newer[|newer| - 1])
      && Leads(d, newer[|newer| - 1].parent, newer[..|newer| - 1], rest)
  }

  lemma {:induction false} LeadsExtend(d: Disk, id: Option<Hash>, newer: seq<Manifest>, h: Hash, m: Manifest)
    requires Leads(d, id, newer, Some(h)) && Load(d, h) == Ok(m)
    ensures Leads(d, id, [m] + newer, m.parent)
    decreases |newer|
  {
    var longer := [m] + newer;
    if newer == [] {
      assert longer[..0] == [];
    } else {
      LeadsExtend(d, newer[|newer| - 1].parent, newer[..|newer| - 1], h, m);
      assert longer[..|longer| - 1] == [m] + newer[..|newer| - 1];
    }
  }

  lemma {:induction false} LeadsToEnd(d: Disk, id: Option<Hash>, newer: seq<Manifest>)
    requires Leads(d, id, newer, None)
    ensures IsChain(d, id, newer)
    decreases |newer|
  {
    if newer != [] {
      LeadsToEnd(d, newer[|newer| - 1].parent, newer[..|newer| - 1]);
    }
  }

  lemma {:induction false} ChainUnique(d: Disk, id: Option<Hash>, chain: seq<Manifest>, chain': seq<Manifest>)
    requires IsChain(d, id, chain) && IsChain(d, id, chain')
    ensures chain == chain'
    decreases |chain|
  {
    if id.Some? {
      var init, init', last := chain[..|chain| - 1], chain'[..|chain'| - 1], chain[|chain| - 1];
      ChainUnique(d, last.parent, init, init');
      assert chain == init + [last] && chain' == init' + [last];
    }
  }

  /** HEAD has a whole ancestry, short enough to be walked. */
  ghost predicate Walkable(d: Disk, chain: seq<Manifest>) {
    IsChain(d, d.head, chain) && |chain| <= 2_000_001
  }

  /** Whatever ancestry HEAD has, `n` steps of the walk down it end at `cur`. */
  ghost predicate WalkedDown(d: Disk, n: nat, cur: Option<Hash>) {
    forall c :: IsChain(d, d.head, c) ==> n <= |c| && IsChain(d, cur, c[..|c| - n])
  }

  lemma WalkDown(d: Disk, n: nat, h: Hash)
    requires WalkedDown(d, n, Some(h))
    ensures Load(d, h).Ok? ==> WalkedDown(d, n + 1, Load(d, h).value.parent)
    ensures forall c :: IsChain(d, d.head, c) ==> n < |c| && Load(d, h).Ok?
  {
    forall c | IsChain(d, d.head, c)
      ensures n < |c| && Load(d, h).Ok? && IsChain(d, Load(d, h).value.parent, c[..|c| - (n + 1)])
    {
      var rest := c[..|c| - n];
      assert IsChain(d, Some(h), rest);
      assert rest[..|rest| - 1] == c[..|c| - (n + 1)];
    }
  }

  /** Walk HEAD's ancestry and hand it back oldest first. */
  method HeadChain(store: Store) returns (r: Result<seq<Manifest>>)
    ensures r.Ok? ==> Walkable(store.Now(), r.value)
    ensures r.Err? ==> forall c :: !Walkable(store.Now(), c)
  {
    var chain: seq<Manifest> := [];
    var cur := store.head;
    var guard := 0;
    ghost var now := store.Now();
    assert WalkedDown(now, 0, cur) by {
      forall c | IsChain(now, now.head, c) ensures IsChain(now, cur, c[..|c| - 0]) { assert c[..|c|] == c; }
    }
    while cur.Some?
      invariant 0 <= guard <= MAX_CHAIN + 1 && guard == |chain|
      invariant Leads(now, now.head, chain, cur) && WalkedDown(now, guard, cur)
      decreases MAX_CHAIN + 1 - guard
    {
      WalkDown(now, guard, cur.value);
      if guard > MAX_CHAIN {
        return Err(Corrupt);
      }
      guard := guard + 1;
      var d := Disk(store.objects, store.manifests, store.head, store.tombstones);
      var m :- Load(d, cur.value);
      LeadsExtend(d, store.head, chain, cur.value, m);
      cur := m.parent;
      chain := [m] + chain;
    }
    LeadsToEnd(now, store.head, chain);
    return Ok(chain);
  }
}
