/** Purge as garbage collection (`purge::run`). */
module Purge {
  import opened Core
  import opened Paths
  import opened Storage
  import opened Worktrees
  import opened History
  import Audit
  import Anchor

  /** Some loadable snapshot names chunk `ch` in an entry at path `rel`. */
  ghost predicate NamedAt(d: Disk, rel: string, ch: Hash) {
    exists h, e :: Loadable(d, h) && e in Load(d, h).value.files && e.path == rel && ch in e.chunks
  }

  /** Some loadable snapshot names chunk `ch` in an entry at another path. */
  ghost predicate NamedElsewhere(d: Disk, rel: string, ch: Hash) {
    exists h, e :: Loadable(d, h) && e in Load(d, h).value.files && e.path != rel && ch in e.chunks
  }

  ghost predicate Doomed(d: Disk, rel: string, ch: Hash) {
    NamedAt(d, rel, ch) && !NamedElsewhere(d, rel, ch)
  }

  /** `d'` is `d` after a complete purge of `rel`. */
  ghost predicate Purges(d: Disk, d': Disk, rel: string, content: Hash) {
    && d'.manifests == d.manifests && d'.head == d.head
    && d'.tombstones == d.tombstones + [Tombstone(rel, content)]
    && (forall ch :: ch in d'.objects <==> ch in d.objects && !Doomed(d, rel, ch))
    && (forall ch :: ch in d'.objects ==> d'.objects[ch] == d.objects[ch])
  }

  /** A crash point of a purge: some of the doomed chunks are gone, everything else is as it was, and
      the tombstone is there only when all of them are. */
  ghost predicate PartlyPurged(d: Disk, d': Disk, rel: string, content: Hash) {
    && d'.manifests == d.manifests && d'.head == d.head
    && (forall ch :: ch in d'.objects ==> ch in d.objects && d'.objects[ch] == d.objects[ch])
    && (forall ch :: ch in d.objects && ch !in d'.objects ==> Doomed(d, rel, ch))
    && (d'.tombstones == d.tombstones || Purges(d, d', rel, content))
  }

  /** The signed statement of erasure. */
  datatype Claim = Claim(
    kind: string,
    version: nat,
    fabricId: string,
    path: string,
    content: string,
    chunksRemoved: nat,
    chunksRetainedShared: nat,
    manifestsTouched: nat,
    auditLen: nat,
    auditTip: string,
    ts: nat)

  datatype Cert = Cert(format: string, pubkey: string, payload: string, sig: string)

  /** JSON of a claim, and the text of the audit record. */
  const SerializeClaim: Claim -> string
  const ParseClaim: string -> Option<Claim>
  const RecordText: (string, nat, nat) -> string

  ghost predicate ClaimRoundTrip() {
    && (forall c: Claim :: ParseClaim(SerializeClaim(c)) == Some(c))
    && (forall k: Anchor.Key, m: string :: Anchor.Verifies(Anchor.PublicHex(k), m, Anchor.Sign(k, m)))
  }

  datatype Counts = Counts(chunksRemoved: nat, chunksRetainedShared: nat, manifestsTouched: nat, liveRemoved: bool)

  datatype PurgeReport = PurgeReport(cert: Cert, counts: Counts)

  // ---------------------------------------------------------------------------------------------
  // Reading the history
  // ---------------------------------------------------------------------------------------------

  datatype Refs = Refs(content: Option<Hash>, at: set<Hash>, elsewhere: set<Hash>, touched: nat)

  ghost predicate NamesChunk(files: seq<FileEntry>, rel: string, same: bool, ch: Hash) {
    exists e :: e in files && (e.path == rel <==> same) && ch in e.chunks
  }

  /** The references of one manifest. */
  method ScanManifest(files: seq<FileEntry>, rel: string, refs: Refs) returns (r: Refs)
    ensures forall ch :: ch in r.at <==> ch in refs.at || NamesChunk(files, rel, true, ch)
    ensures forall ch :: ch in r.elsewhere <==> ch in refs.elsewhere || NamesChunk(files, rel, false, ch)
    ensures r.touched == refs.touched + if LastAt(files, rel).Some? then 1 else 0
    ensures refs.content.Some? ==> r.content == refs.content
    ensures refs.content.None? ==> (r.content.Some? <==> LastAt(files, rel).Some?)
    ensures refs.content.None? && r.content.Some? ==> exists e :: e in files && e.path == rel && r.content == Some(e.content)
  {
    r := refs;
    var hit := false;
    for n := 0 to |files|
      invariant forall ch :: ch in r.at <==> ch in refs.at || NamesChunk(files[..n], rel, true, ch)
      invariant forall ch :: ch in r.elsewhere <==> ch in refs.elsewhere || NamesChunk(files[..n], rel, false, ch)
      invariant r.touched == refs.touched
      invariant hit <==> exists e :: e in files[..n] && e.path == rel
      invariant refs.content.Some? ==> r.content == refs.content
      invariant refs.content.None? ==> (r.content.Some? <==> hit)
      invariant refs.content.None? && r.content.Some? ==> exists e :: e in files[..n] && e.path == rel && r.content == Some(e.content)
    {
      var fe := files[n];
      assert files[..n + 1] == files[..n] + [fe];
      NamesOneMore(files[..n], fe, rel);
      var mentioned := set ch | ch in fe.chunks;
      if fe.path == rel {
        hit := true;
        r := r.(content := if r.content.None? then Some(fe.content) else r.content, at := r.at + mentioned);
      } else {
        r := r.(elsewhere := r.elsewhere + mentioned);
      }
    }
    assert files[..|files|] == files;
    if hit {
      r := r.(touched := r.touched + 1);
    }
  }

  lemma NamesOneMore(files: seq<FileEntry>, fe: FileEntry, rel: string)
    ensures forall ch, same :: NamesChunk(files + [fe], rel, same, ch) <==>
                                 NamesChunk(files, rel, same, ch) || ((fe.path == rel <==> same) && ch in fe.chunks)
  {
    forall ch, same
      ensures NamesChunk(files + [fe], rel, same, ch) <==>
                NamesChunk(files, rel, same, ch) || ((fe.path == rel <==> same) && ch in fe.chunks)
    {
      if NamesChunk(files, rel, same, ch) {
        var e :| e in files && (e.path == rel <==> same) && ch in e.chunks;
        assert e in files + [fe];
      }
      if (fe.path == rel <==> same) && ch in fe.chunks {
        assert fe in files + [fe];
      }
    }
  }

  ghost predicate NamedIn(l: Listing, rel: string, same: bool, ch: Hash) {
    exists x :: x in l && NamesChunk(x.1.files, rel, same, ch)
  }

  /** Snapshots of `l` that hold `rel`. */
  function HitCount(l: Listing, rel: string): nat {
    if l == [] then 0
    else HitCount(l[..|l| - 1], rel) + if LastAt(l[|l| - 1].1.files, rel).Some? then 1 else 0
  }

  /** `content` is what the newest snapshot of `l` that holds `rel` records for it. */
  ghost predicate NewestContent(l: Listing, rel: string, content: Option<Hash>) {
    match content
    case None => forall x :: x in l ==> LastAt(x.1.files, rel).None?
    case Some(h) => exists i ::
      && 0 <= i < |l| && (exists e :: e in l[i].1.files && e.path == rel && e.content == h)
      && forall j :: 0 <= j < i ==> LastAt(l[j].1.files, rel).None?
  }

  /** All references, newest snapshot first. */
  method ScanHistory(l: Listing, rel: string, live: Option<Hash>) returns (r: Refs)
    ensures forall ch :: ch in r.at <==> NamedIn(l, rel, true, ch)
    ensures forall ch :: ch in r.elsewhere <==> NamedIn(l, rel, false, ch)
    ensures r.touched == HitCount(l, rel)
    ensures live.Some? ==> r.content == live
    ensures live.None? ==> NewestContent(l, rel, r.content)
  {
    r := Refs(live, {}, {}, 0);
    for n := 0 to |l|
      invariant forall ch :: ch in r.at <==> NamedIn(l[..n], rel, true, ch)
      invariant forall ch :: ch in r.elsewhere <==> NamedIn(l[..n], rel, false, ch)
      invariant r.touched == HitCount(l[..n], rel)
      invariant live.Some? ==> r.content == live
      invariant live.None? ==> NewestContent(l[..n], rel, r.content)
    {
      ghost var before := r;
      r := ScanManifest(l[n].1.files, rel, r);
      assert l[..n + 1] == l[..n] + [l[n]] && l[..n + 1][..n] == l[..n];
      NamedInOneMore(l[..n], l[n], rel);
      if live.None? {
        NewestOneMore(l[..n], l[n], rel, before.content, r.content);
      }
    }
    assert l[..|l|] == l;
  }

  lemma NamedInOneMore(l: Listing, x: (Hash, Manifest), rel: string)
    ensures forall same, ch :: NamedIn(l + [x], rel, same, ch) <==> NamedIn(l, rel, same, ch) || NamesChunk(x.1.files, rel, same, ch)
  {
    forall same, ch
      ensures NamedIn(l + [x], rel, same, ch) <==> NamedIn(l, rel, same, ch) || NamesChunk(x.1.files, rel, same, ch)
    {
      if NamedIn(l, rel, same, ch) {
        var y :| y in l && NamesChunk(y.1.files, rel, same, ch);
        assert y in l + [x];
      }
      if NamesChunk(x.1.files, rel, same, ch) {
        assert x in l + [x];
      }
    }
  }

  lemma NewestOneMore(l: Listing, x: (Hash, Manifest), rel: string, content: Option<Hash>, content': Option<Hash>)
    requires NewestContent(l, rel, content)
    requires content.Some? ==> content' == content
    requires content.None? ==> (content'.Some? <==> LastAt(x.1.files, rel).Some?)
    requires content.None? && content'.Some? ==> exists e :: e in x.1.files && e.path == rel && content' == Some(e.content)
    ensures NewestContent(l + [x], rel, content')
  {
    var longer := l + [x];
    if content.Some? {
      var i :| 0 <= i < |l| && (exists e :: e in l[i].1.files && e.path == rel && e.content == content.value)
        && forall j :: 0 <= j < i ==> LastAt(l[j].1.files, rel).None?;
      assert longer[i] == l[i] && forall j :: 0 <= j < i ==> longer[j] == l[j];
    } else if content'.Some? {
      assert longer[|l|] == x && forall j :: 0 <= j < |l| ==> longer[j] == l[j] && longer[j] in l;
    }
  }

  lemma ListingNames(d: Disk, l: Listing, rel: string, ch: Hash)
    requires Lists(d, l, d.manifests.Keys)
    ensures NamedIn(l, rel, true, ch) <==> NamedAt(d, rel, ch)
    ensures NamedIn(l, rel, false, ch) <==> NamedElsewhere(d, rel, ch)
  {
    if NamedAt(d, rel, ch) {
      var h, e :| Loadable(d, h) && e in Load(d, h).value.files && e.path == rel && ch in e.chunks;
      assert (h, Load(d, h).value) in l && NamesChunk(Load(d, h).value.files, rel, true, ch);
    }
    if NamedElsewhere(d, rel, ch) {
      var h, e :| Loadable(d, h) && e in Load(d, h).value.files && e.path != rel && ch in e.chunks;
      assert (h, Load(d, h).value) in l && NamesChunk(Load(d, h).value.files, rel, false, ch);
    }
    if NamedIn(l, rel, true, ch) {
      var x :| x in l && NamesChunk(x.1.files, rel, true, ch);
      assert Loadable(d, x.0);
    }
    if NamedIn(l, rel, false, ch) {
      var x :| x in l && NamesChunk(x.1.files, rel, false, ch);
      assert Loadable(d, x.0);
    }
  }

  // ---------------------------------------------------------------------------------------------
  // Sweeping
  // ---------------------------------------------------------------------------------------------

  /** Only unshared chunks have gone, and nothing else has changed. */
  ghost predicate Swept(d: Disk, d': Disk, at: set<Hash>, elsewhere: set<Hash>) {
    && d'.manifests == d.manifests && d'.head == d.head && d'.tombstones == d.tombstones
    && (forall ch :: ch in d'.objects ==> ch in d.objects && d'.objects[ch] == d.objects[ch])
    && (forall ch :: ch in d.objects && ch !in d'.objects ==> ch in at && ch !in elsewhere)
  }

  ghost predicate AllSwept(d: Disk, trail: seq<Disk>, n: nat, at: set<Hash>, elsewhere: set<Hash>) {
    forall i :: n <= i < |trail| ==> Swept(d, trail[i], at, elsewhere)
  }

  /** What becomes of one chunk of the path. */
  datatype Outcome = Removed | Retained | Absent

  function OutcomeOf(objects: map<Hash, Bytes>, elsewhere: set<Hash>, ch: Hash): Outcome {
    if ch in elsewhere then Retained else if ch in objects then Removed else Absent
  }

  ghost function With(objects: map<Hash, Bytes>, at: set<Hash>, elsewhere: set<Hash>, o: Outcome): set<Hash> {
    set ch | ch in at && OutcomeOf(objects, elsewhere, ch) == o
  }

  lemma OneMore(objects: map<Hash, Bytes>, done: set<Hash>, elsewhere: set<Hash>, ch: Hash, o: Outcome)
    requires ch !in done
    ensures |With(objects, done + {ch}, elsewhere, o)| ==
            |With(objects, done, elsewhere, o)| + if OutcomeOf(objects, elsewhere, ch) == o then 1 else 0
  {
    var was, now := With(objects, done, elsewhere, o), With(objects, done + {ch}, elsewhere, o);
    assert now == if OutcomeOf(objects, elsewhere, ch) == o then was + {ch} else was;
  }

  /** Every chunk has one of the three outcomes. */
  lemma OutcomesAddUp(objects: map<Hash, Bytes>, at: set<Hash>, elsewhere: set<Hash>)
    ensures |With(objects, at, elsewhere, Removed)| + |With(objects, at, elsewhere, Retained)|
          + |With(objects, at, elsewhere, Absent)| == |at|
  {
    var a, b, c := With(objects, at, elsewhere, Removed), With(objects, at, elsewhere, Retained), With(objects, at, elsewhere, Absent);
    assert at == a + b + c;
  }

  /** The counters stand at the chunks `done`, and the others have not been touched. */
  ghost predicate Tallied(objects: map<Hash, Bytes>, now: map<Hash, Bytes>, at: set<Hash>, done: set<Hash>, elsewhere: set<Hash>,
                          removed: nat, retained: nat)
  {
    && removed == |With(objects, done, elsewhere, Removed)| && retained == |With(objects, done, elsewhere, Retained)|
    && (forall ch :: ch in done && ch !in elsewhere ==> ch !in now)
    && (forall ch :: ch in at && ch !in done ==> (ch in now <==> ch in objects))
  }

  /** One chunk of the path. */
  method SweepOne(store: Store, ch: Hash, elsewhere: set<Hash>, ghost d0: Disk, ghost at: set<Hash>, ghost start: nat)
    returns (r: Result<Outcome>)
    requires store.Valid() && ch in at && start <= |store.trail|
    requires Swept(d0, store.Now(), at, elsewhere) && AllSwept(d0, store.trail, start, at, elsewhere)
    modifies store
    ensures store.Valid() && old(store.trail) <= store.trail
    ensures Swept(d0, store.Now(), at, elsewhere) && AllSwept(d0, store.trail, start, at, elsewhere)
    ensures r.Ok? ==> r.value == OutcomeOf(old(store.objects), elsewhere, ch)
    ensures r.Ok? ==> store.objects == if r.value == Removed then old(store.objects) - {ch} else old(store.objects)
    ensures !store.faulty ==> r.Ok?
  {
    if ch in elsewhere {
      return Ok(Retained);
    }
    var deleted :- store.DeleteObject(ch);
    return Ok(if deleted then Removed else Absent);
  }

  /** Delete the chunks of `at` that nothing else refers to.  Every chunk of `at` is counted once: as
      removed, as retained because it is shared, or as already absent. */
  method SweepChunks(store: Store, at: set<Hash>, elsewhere: set<Hash>) returns (r: Result<(nat, nat)>)
    requires store.Valid()
    modifies store
    ensures store.Valid() && old(store.trail) <= store.trail
    ensures AllSwept(old(store.Now()), store.trail, |old(store.trail)|, at, elsewhere) && Swept(old(store.Now()), store.Now(), at, elsewhere)
    ensures r.Ok? ==> forall ch :: ch in at && ch !in elsewhere ==> ch !in store.objects
    ensures r.Ok? ==>
              && r.value.0 == |With(old(store.objects), at, elsewhere, Removed)|
              && r.value.1 == |With(old(store.objects), at, elsewhere, Retained)|
    ensures !store.faulty ==> r.Ok?
  {
    ghost var d0 := store.Now();
    var removed, retained := 0, 0;
    var todo := at;
    while todo != {}
      invariant todo <= at
      invariant store.Valid() && old(store.trail) <= store.trail
      invariant AllSwept(d0, store.trail, |old(store.trail)|, at, elsewhere) && Swept(d0, store.Now(), at, elsewhere)
      invariant Tallied(d0.objects, store.objects, at, at - todo, elsewhere, removed, retained)
    {
      var ch :| ch in todo;
      ghost var done := at - todo;
      OneMore(d0.objects, done, elsewhere, ch, Removed);
      OneMore(d0.objects, done, elsewhere, ch, Retained);
      var swept :- SweepOne(store, ch, elsewhere, d0, at, |old(store.trail)|);
      todo := todo - {ch};
      assert at - todo == done + {ch};
      match swept
      case Removed => removed := removed + 1;
      case Retained => retained := retained + 1;
      case Absent =>
    }
    assert at - todo == at;
    return Ok((removed, retained));
  }

  // ---------------------------------------------------------------------------------------------
  // purge
  // ---------------------------------------------------------------------------------------------

  /** There is a live file under this very name. */
  ghost predicate HasLive(t: Tree, rel: string) {
    Sanitize(rel).Ok? && EndsInName(rel) && Sanitize(rel).value in t
  }

  ghost function WithoutLive(t: Tree, rel: string): Tree {
    if HasLive(t, rel) then t - {Sanitize(rel).value} else t
  }

  /** The live file is one of the store's own. */
  ghost predicate HitsFabric(t: Tree, rel: string) { HasLive(t, rel) && InFabric(Sanitize(rel).value) }

  /** The content `purge` puts on the tombstone: the live file's, else the newest snapshot's. */
  ghost predicate PurgedContent(d: Disk, t: Tree, rel: string, content: Hash) {
    if HasLive(t, rel) then content == HashBytes(t[Sanitize(rel).value])
    else exists l :: Lists(d, l, d.manifests.Keys) && NewestFirst(l) && NewestContent(l, rel, Some(content))
  }

  /** There is something to erase at `rel`, and it has not been erased before. */
  ghost predicate Purgeable(d: Disk, t: Tree, rel: string) {
    && Sanitize(rel).Ok? && AncestryLoads(d)
    && (HasLive(t, rel) || Holders(d, rel) != {})
    && !PathPurged(d.tombstones, rel)
    && forall content :: PurgedContent(d, t, rel, content) ==> !ContentPurged(d.tombstones, content)
  }

  lemma FoundContent(d: Disk, t: Tree, rel: string, l: Listing, content: Hash)
    requires Sanitize(rel).Ok? && Lists(d, l, d.manifests.Keys) && NewestFirst(l)
    requires if HasLive(t, rel) then content == HashBytes(t[Sanitize(rel).value]) else NewestContent(l, rel, Some(content))
    ensures PurgedContent(d, t, rel, content)
  {
  }

  lemma FoundNothing(d: Disk, rel: string, l: Listing)
    requires Lists(d, l, d.manifests.Keys) && NewestContent(l, rel, None)
    ensures Holders(d, rel) == {}
  {
    forall h ensures h !in Holders(d, rel) {
      if h in d.manifests && Loadable(d, h) { assert (h, Load(d, h).value) in l; }
    }
  }

  /** The snapshots that hold `rel`. */
  ghost function Holders(d: Disk, rel: string): set<Hash> {
    set h | h in d.manifests && Loadable(d, h) && LastAt(Load(d, h).value.files, rel).Some?
  }

  ghost function HitIds(l: Listing, rel: string): set<Hash> {
    set x | x in l && LastAt(x.1.files, rel).Some? :: x.0
  }

  lemma {:induction false} HitCountIsDistinct(l: Listing, rel: string)
    requires DistinctIds(l)
    ensures HitCount(l, rel) == |HitIds(l, rel)|
  {
    if l != [] {
      var init, last := l[..|l| - 1], l[|l| - 1];
      HitCountIsDistinct(init, rel);
      assert l == init + [last];
      HitIdsOneMore(init, last, rel);
    }
  }

  lemma HitIdsOneMore(l: Listing, x: (Hash, Manifest), rel: string)
    requires DistinctIds(l + [x])
    ensures |HitIds(l + [x], rel)| == |HitIds(l, rel)| + if LastAt(x.1.files, rel).Some? then 1 else 0
  {
    var more := if LastAt(x.1.files, rel).Some? then {x.0} else {};
    assert HitIds(l + [x], rel) == HitIds(l, rel) + more;
    forall y | y in l ensures y.0 != x.0 {
      var i :| 0 <= i < |l| && l[i] == y;
      assert (l + [x])[i] == y && (l + [x])[|l|] == x;
    }
    assert x.0 !in HitIds(l, rel);
  }

  lemma HoldersCounted(d: Disk, l: Listing, rel: string)
    requires Lists(d, l, d.manifests.Keys)
    ensures HitCount(l, rel) == |Holders(d, rel)|
  {
    HitCountIsDistinct(l, rel);
    forall h ensures h in Holders(d, rel) <==> h in HitIds(l, rel) {
      if h in Holders(d, rel) { assert (h, Load(d, h).value) in l; }
    }
    assert HitIds(l, rel) == Holders(d, rel);
  }

  /** The chunks named at the path, by what a purge does to them. */
  ghost predicate Counted(d: Disk, rel: string, chunks: set<Hash>, removed: nat, retained: nat) {
    && (forall ch :: ch in chunks <==> NamedAt(d, rel, ch))
    && removed == |set ch | ch in chunks && !NamedElsewhere(d, rel, ch) && ch in d.objects|
    && retained == |set ch | ch in chunks && NamedElsewhere(d, rel, ch)|
    && removed + retained + |set ch | ch in chunks && !NamedElsewhere(d, rel, ch) && ch !in d.objects| == |chunks|
  }

  lemma SweptCounts(d: Disk, rel: string, at: set<Hash>, elsewhere: set<Hash>, removed: nat, retained: nat)
    requires forall ch :: ch in at <==> NamedAt(d, rel, ch)
    requires forall ch :: ch in elsewhere <==> NamedElsewhere(d, rel, ch)
    requires removed == |With(d.objects, at, elsewhere, Removed)| && retained == |With(d.objects, at, elsewhere, Retained)|
    ensures Counted(d, rel, at, removed, retained)
  {
    OutcomesAddUp(d.objects, at, elsewhere);
    assert With(d.objects, at, elsewhere, Removed) == set ch | ch in at && !NamedElsewhere(d, rel, ch) && ch in d.objects;
    assert With(d.objects, at, elsewhere, Retained) == set ch | ch in at && NamedElsewhere(d, rel, ch);
    assert With(d.objects, at, elsewhere, Absent) == set ch | ch in at && !NamedElsewhere(d, rel, ch) && ch !in d.objects;
  }

  lemma SweptPurges(d: Disk, d1: Disk, d2: Disk, rel: string, content: Hash, at: set<Hash>, elsewhere: set<Hash>)
    requires forall ch :: ch in at <==> NamedAt(d, rel, ch)
    requires forall ch :: ch in elsewhere <==> NamedElsewhere(d, rel, ch)
    requires Swept(d, d1, at, elsewhere) && forall ch :: ch in at && ch !in elsewhere ==> ch !in d1.objects
    requires d2 == d1.(tombstones := d1.tombstones + [Tombstone(rel, content)])
    ensures Purges(d, d2, rel, content)
  {
  }

  /** The part of a purge that changes the store: sweep, then bury. */
  method Bury(store: Store, rel: string, content: Hash, refs: Refs) returns (r: Result<(nat, nat)>)
    requires store.Valid()
    requires forall ch :: ch in refs.at <==> NamedAt(store.Now(), rel, ch)
    requires forall ch :: ch in refs.elsewhere <==> NamedElsewhere(store.Now(), rel, ch)
    modifies store
    ensures store.Valid() && old(store.trail) <= store.trail
    ensures r.Ok? ==> Purges(old(store.Now()), store.Now(), rel, content)
    ensures r.Ok? ==> Counted(old(store.Now()), rel, refs.at, r.value.0, r.value.1)
    ensures forall i :: |old(store.trail)| <= i < |store.trail| ==> PartlyPurged(old(store.Now()), store.trail[i], rel, content)
    ensures !store.faulty ==> r.Ok?
  {
    ghost var d0 := store.Now();
    var swept := SweepChunks(store, refs.at, refs.elsewhere);
    SweptIsPartly(d0, store.trail, |old(store.trail)|, refs.at, refs.elsewhere, rel, content);
    if swept.Err? {
      return Err(swept.error);
    }
    ghost var d1 := store.Now();
    SweptCounts(d0, rel, refs.at, refs.elsewhere, swept.value.0, swept.value.1);
    var buried :- store.AppendTombstone(Tombstone(rel, content));
    SweptPurges(d0, d1, store.Now(), rel, content, refs.at, refs.elsewhere);
    return Ok(swept.value);
  }

  /** Find out what erasing `rel` means, or why it cannot be done. */
  method Survey(store: Store, tree: Worktree, rel: string) returns (r: Result<Refs>)
    requires store.Valid() && tree.Valid()
    ensures r.Ok? ==>
      && Sanitize(rel).Ok? && AncestryLoads(store.Now()) && r.value.content.Some?
      && PurgedContent(store.Now(), tree.files, rel, r.value.content.value)
      && !PathPurged(store.tombstones, rel) && !ContentPurged(store.tombstones, r.value.content.value)
      && (forall ch :: ch in r.value.at <==> NamedAt(store.Now(), rel, ch))
      && (forall ch :: ch in r.value.elsewhere <==> NamedElsewhere(store.Now(), rel, ch))
      && r.value.touched == |Holders(store.Now(), rel)|
    ensures Purgeable(store.Now(), tree.files, rel) ==> r.Ok?
  {
    ghost var d := store.Now();
    var place :- Sanitize(rel);
    var live := if EndsInName(rel) && place in tree.files then Some(HashBytes(tree.files[place])) else None;
    var l :- List(store);
    var refs := ScanHistory(l, rel, live);
    if refs.content.None? {
      FoundNothing(d, rel, l);
      return Err(Corrupt);
    }
    FoundContent(d, tree.files, rel, l, refs.content.value);
    if exists b :: b in store.tombstones && (b.path == rel || b.content == refs.content.value) {
      return Err(Corrupt);
    }
    ScannedChunks(d, l, rel, refs);
    HoldersCounted(d, l, rel);
    return Ok(refs);
  }

  /** `cert` is signed with `key` over the text of `claim`. */
  ghost predicate SignedOver(cert: Cert, key: Anchor.Key, claim: Claim) {
    && cert.format == "respawn-purge/v1" && cert.pubkey == Anchor.PublicHex(key)
    && cert.payload == SerializeClaim(claim) && cert.sig == Anchor.Sign(key, cert.payload)
  }

  /** `cert` can be read as `claim`, and its signature verifies under `key`. */
  ghost predicate Attests(cert: Cert, key: Anchor.Key, claim: Claim) {
    && cert.format == "respawn-purge/v1" && cert.pubkey == Anchor.PublicHex(key)
    && ParseClaim(cert.payload) == Some(claim) && Anchor.Verifies(cert.pubkey, cert.payload, cert.sig)
  }

  /** The claim speaks of this fabric, path, content and time, and of the log up to `link`. */
  ghost predicate ClaimsErasure(claim: Claim, fabricId: string, rel: string, content: Hash, link: (nat, string), ts: nat) {
    && claim.kind == "respawn-purge" && claim.version == 1 && claim.fabricId == fabricId
    && claim.path == rel && claim.content == Audit.Hex(content)
    && claim.auditLen == link.0 && claim.auditTip == link.1 && claim.ts == ts
  }

  /** Sign the certificate over the log as it stands, then record the purge in the log. */
  method Certify(fabric: Anchor.Fabric, rel: string, content: Hash, counts: Counts, ts: nat, keyHeld: bool)
    returns (r: Result<Cert>, ghost claim: Claim)
    modifies fabric.log
    ensures r.Ok? <==> keyHeld && Audit.Garbage !in old(fabric.log.lines)
    ensures r.Ok? ==> SignedOver(r.value, fabric.key, claim)
    ensures r.Ok? && ClaimRoundTrip() ==> Attests(r.value, fabric.key, claim)
    ensures r.Ok? ==> ClaimsErasure(claim, fabric.fabricId, rel, content, Audit.NextLink(old(fabric.log.lines)), ts)
    ensures r.Ok? ==>
      && claim.chunksRemoved == counts.chunksRemoved && claim.chunksRetainedShared == counts.chunksRetainedShared
      && claim.manifestsTouched == counts.manifestsTouched
    ensures r.Ok? ==> exists l: Audit.Line ::
      && fabric.log.lines == Audit.Appended(old(fabric.log.lines), old(fabric.log.ended), l)
      && l.Parsed? && l.entry.body.event == "purge" && l.entry.body.detail == RecordText(rel, counts.chunksRemoved, counts.chunksRetainedShared)
    ensures r.Ok? ==> (Audit.ValidLog(fabric.log.lines) <==>
      old(Audit.ValidLog(fabric.log.lines)) && Audit.FreshLine(old(fabric.log.lines), old(fabric.log.ended)))
    ensures r.Err? ==> fabric.log.lines == old(fabric.log.lines)
  {
    if !keyHeld {
      r, claim := Err(Io), *;
      return;
    }
    var tip := fabric.log.Tip();
    if tip.Err? {
      r, claim := Err(tip.error), *;
      return;
    }
    var payload := Claim("respawn-purge", 1, fabric.fabricId, rel, Audit.Hex(content), counts.chunksRemoved, counts.chunksRetainedShared,
                         counts.manifestsTouched, tip.value.0, tip.value.1, ts);
    var text := SerializeClaim(payload);
    claim := payload;
    var l := fabric.log.Record(ts, "purge", RecordText(rel, counts.chunksRemoved, counts.chunksRetainedShared), false);
    r := Ok(Cert("respawn-purge/v1", Anchor.PublicHex(fabric.key), text, Anchor.Sign(fabric.key, text)));
  }

  /** The same when the file that was just unlinked is the log, the key or the fabric's name: anything may
      come of it. */
  method CertifyHit(fabric: Anchor.Fabric) returns (r: Result<Cert>)
    modifies fabric.log
  {
    fabric.log.lines, fabric.log.ended := *, *;
    r := *;
  }

  /** What a purge leaves behind before it is certified.  Of the store nothing is known when the live file
      was one of its own. */
  ghost predicate Erased(d: Disk, d': Disk, t: Tree, t': Tree, rel: string, content: Hash, chunks: set<Hash>, counts: Counts) {
    && PurgedContent(d, t, rel, content)
    && !PathPurged(d.tombstones, rel) && !ContentPurged(d.tombstones, content)
    && (!HitsFabric(t, rel) ==> Purges(d, d', rel, content))
    && Sanitize(rel).Ok? && t' == WithoutLive(t, rel) && counts.liveRemoved == HasLive(t, rel)
    && Counted(d, rel, chunks, counts.chunksRemoved, counts.chunksRetainedShared)
    && counts.manifestsTouched == |Holders(d, rel)|
  }

  /** Remove the live file, if there is one.  Nothing keeps it from being a file of the store's. */
  method UnlinkLive(store: Store, tree: Worktree, rel: string) returns (r: Result<bool>)
    requires store.Valid() && tree.Valid() && Sanitize(rel).Ok?
    modifies store, tree
    ensures store.Valid() && tree.Valid()
    ensures r.Ok? ==> tree.files == WithoutLive(old(tree.files), rel) && r.value == HasLive(old(tree.files), rel)
    ensures !HitsFabric(old(tree.files), rel) ==> store.Now() == old(store.Now())
    ensures store.trail == old(store.trail) || (HitsFabric(old(tree.files), rel) && store.trail == old(store.trail) + [store.Now()])
    ensures !tree.faulty ==> r.Ok?
  {
    var place := Sanitize(rel).value;
    if !EndsInName(rel) || place !in tree.files {
      return Ok(false);
    }
    var removed :- tree.Remove(place);
    if place[0] == FABRIC_DIR {
      store.Clobber();
    }
    return Ok(true);
  }

  /** Every state passed through has lost only doomed chunks, but for the last one when a file of the
      store's own was unlinked. */
  ghost predicate AllPartly(d: Disk, trail: seq<Disk>, n: nat, rel: string, content: Hash, hit: bool) {
    forall i :: n <= i < |trail| && !(hit && i == |trail| - 1) ==> PartlyPurged(d, trail[i], rel, content)
  }

  /** Everything but the certificate.  `content` is the tombstoned content and `chunks` the distinct chunks
      of the path. */
  method Erase(store: Store, tree: Worktree, rel: string)
    returns (r: Result<(Hash, Counts)>, ghost content: Option<Hash>, ghost chunks: set<Hash>)
    requires store.Valid() && tree.Valid()
    modifies store, tree
    ensures store.Valid() && tree.Valid() && old(store.trail) <= store.trail
    ensures r.Ok? ==>
      && content == Some(r.value.0)
      && Erased(old(store.Now()), store.Now(), old(tree.files), tree.files, rel, r.value.0, chunks, r.value.1)
    ensures content.None? ==> r.Err? && store.Now() == old(store.Now()) && tree.files == old(tree.files)
    ensures content.Some? ==>
      AllPartly(old(store.Now()), store.trail, |old(store.trail)|, rel, content.value, HitsFabric(old(tree.files), rel))
    ensures Purgeable(old(store.Now()), old(tree.files), rel) && !store.faulty && !tree.faulty ==> r.Ok?
  {
    content, chunks := None, {};
    var refs :- Survey(store, tree, rel);
    content, chunks := refs.content, refs.at;
    var counts :- Bury(store, rel, refs.content.value, refs);
    var live :- UnlinkLive(store, tree, rel);
    r := Ok((refs.content.value, Counts(counts.0, counts.1, refs.touched, live)));
  }

  /** The certificate of what was erased, whose counts are those of the disk before. */
  ghost predicate Certified(cert: Cert, claim: Claim, key: Anchor.Key, fabricId: string, rel: string, content: Hash,
                            d: Disk, chunks: set<Hash>, lines: seq<Audit.Line>, ts: nat)
  {
    && SignedOver(cert, key, claim) && (ClaimRoundTrip() ==> Attests(cert, key, claim))
    && ClaimsErasure(claim, fabricId, rel, content, Audit.NextLink(lines), ts)
    && Counted(d, rel, chunks, claim.chunksRemoved, claim.chunksRetainedShared)
    && claim.manifestsTouched == |Holders(d, rel)|
  }

  /** Erase `rel` and certify it, as usual unless the store's own files have been hit, among which are the
      audit log and the fabric's name. */
  method Run(store: Store, tree: Worktree, fabric: Anchor.Fabric, rel: string, ts: nat, keyHeld: bool)
    returns (r: Result<PurgeReport>, ghost content: Option<Hash>, ghost chunks: set<Hash>, ghost claim: Claim)
    requires store.Valid() && tree.Valid()
    modifies store, tree, fabric.log
    ensures store.Valid() && tree.Valid() && old(store.trail) <= store.trail
    ensures r.Ok? ==>
      && content.Some?
      && Erased(old(store.Now()), store.Now(), old(tree.files), tree.files, rel, content.value, chunks, r.value.counts)
    ensures r.Ok? && !HitsFabric(old(tree.files), rel) ==>
      Certified(r.value.cert, claim, fabric.key, fabric.fabricId, rel, content.value, old(store.Now()), chunks,
                old(fabric.log.lines), ts)
    ensures content.None? ==> r.Err? && store.Now() == old(store.Now()) && tree.files == old(tree.files)
    ensures content.Some? ==>
      AllPartly(old(store.Now()), store.trail, |old(store.trail)|, rel, content.value, HitsFabric(old(tree.files), rel))
    ensures r.Ok? && !HitsFabric(old(tree.files), rel) ==> keyHeld && Audit.Garbage !in old(fabric.log.lines)
    ensures Purgeable(old(store.Now()), old(tree.files), rel) && !HitsFabric(old(tree.files), rel) && !store.faulty && !tree.faulty
      ==> keyHeld && Audit.Garbage !in old(fabric.log.lines) ==> r.Ok?
  {
    content, chunks, claim := None, {}, *;
    var place := Sanitize(rel);
    var hit := place.Ok? && EndsInName(rel) && place.value in tree.files && place.value[0] == FABRIC_DIR;
    var erased;
    erased, content, chunks := Erase(store, tree, rel);
    if erased.Err? {
      r := Err(erased.error);
      return;
    }
    var cert;
    if hit {
      cert := CertifyHit(fabric);
    } else {
      cert, claim := Certify(fabric, rel, erased.value.0, erased.value.1, ts, keyHeld);
    }
    r := if cert.Err? then Err(cert.error) else Ok(PurgeReport(cert.value, erased.value.1));
  }

  /** The store's own files leave only with a live file that is one of them. */
  lemma PurgeLeavesFabricAlone(t: Tree, rel: string)
    ensures SameFabric(t, WithoutLive(t, rel)) <==> !HitsFabric(t, rel)
  {
    if HasLive(t, rel) {
      assert !SameAt(WithoutLive(t, rel), t, Sanitize(rel).value);
    }
  }

  /** Under a name with "/" or "/." behind it the file is not found and not removed. */
  lemma SlashedPurgeSparesFile(t: Tree, c: Comps, last: string)
    requires GoodComps(c) && (last == "" || last == ".") && |Join(c)| + 1 + |last| <= MAX_PATH
    ensures Sanitize(Join(c) + ("/" + last)) == Ok(c)
    ensures !HasLive(t, Join(c) + ("/" + last)) && WithoutLive(t, Join(c) + ("/" + last)) == t
  {
    SlashedPath(c, last);
  }

  /** Every file of the fabric directory can be purged, HEAD, the tombstones and the objects among them. */
  lemma FabricIsPurgeable(d: Disk, t: Tree, c: Comps)
    requires GoodComps(c) && InFabric(c) && |Join(c)| <= MAX_PATH && c in t
    requires AncestryLoads(d) && !PathPurged(d.tombstones, Join(c)) && !ContentPurged(d.tombstones, HashBytes(t[c]))
    ensures Purgeable(d, t, Join(c)) && HitsFabric(t, Join(c)) && !SameFabric(t, WithoutLive(t, Join(c)))
  {
    SanitizeJoin(c);
    JoinEndsInName(c);
    PurgeLeavesFabricAlone(t, Join(c));
  }

  // ---------------------------------------------------------------------------------------------
  // Certificates
  // ---------------------------------------------------------------------------------------------

  /** What makes a certificate acceptable. */
  ghost predicate Checks(tombstones: seq<Tombstone>, fabricId: string, cert: Cert, claim: Claim, pin: Option<string>) {
    && cert.format == "respawn-purge/v1" && claim.kind == "respawn-purge" && claim.fabricId == fabricId
    && (pin == None || pin == Some(cert.pubkey)) && Anchor.Verifies(cert.pubkey, cert.payload, cert.sig)
    && exists t :: t in tombstones && t.path == claim.path && Audit.Hex(t.content) == claim.content
  }

  /** `verify_cert`: signed, of this fabric, and borne out by a tombstone. */
  function VerifyCert(tombstones: seq<Tombstone>, fabricId: string, cert: Cert, pin: Option<string>): (r: Result<Claim>)
    ensures r.Ok? ==> ParseClaim(cert.payload) == Some(r.value)
    ensures r.Ok? <==> ParseClaim(cert.payload).Some? && Checks(tombstones, fabricId, cert, ParseClaim(cert.payload).value, pin)
  {
    if cert.format != "respawn-purge/v1" then Err(Corrupt)
    else
      match ParseClaim(cert.payload)
      case None => Err(Corrupt)
      case Some(claim) =>
        if claim.kind != "respawn-purge" then Err(Corrupt)
        else if pin.Some? && cert.pubkey != pin.value then Err(Corrupt)
        else if !Anchor.Verifies(cert.pubkey, cert.payload, cert.sig) then Err(Corrupt)
        else if claim.fabricId != fabricId then Err(Corrupt)
        else if exists t :: t in tombstones && t.path == claim.path && Audit.Hex(t.content) == claim.content then Ok(claim)
        else Err(Corrupt)
  }

  /** The certificate of a purge verifies under its own signer or none pinned, in its own fabric, and in
      every later state that kept the tombstones: in no state that lost them. */
  lemma CertOutlivesPurge(d: Disk, d': Disk, later: seq<Tombstone>, key: Anchor.Key, cert: Cert, claim: Claim, content: Hash,
                          fabricId: string, pin: Option<string>)
    requires Audit.Binding() && Attests(cert, key, claim)
    requires claim.kind == "respawn-purge" && claim.content == Audit.Hex(content)
    requires Purges(d, d', claim.path, content)
    ensures VerifyCert(later, fabricId, cert, pin).Ok? <==>
              && Tombstone(claim.path, content) in later && fabricId == claim.fabricId
              && (pin == None || pin == Some(Anchor.PublicHex(key)))
    ensures d'.tombstones <= later ==> Tombstone(claim.path, content) in later
  {
    if d'.tombstones <= later {
      assert later[|d.tombstones|] == d'.tombstones[|d.tombstones|];
    }
  }

  lemma ScannedChunks(d: Disk, l: Listing, rel: string, refs: Refs)
    requires Lists(d, l, d.manifests.Keys)
    requires forall ch :: ch in refs.at <==> NamedIn(l, rel, true, ch)
    requires forall ch :: ch in refs.elsewhere <==> NamedIn(l, rel, false, ch)
    ensures forall ch :: ch in refs.at <==> NamedAt(d, rel, ch)
    ensures forall ch :: ch in refs.elsewhere <==> NamedElsewhere(d, rel, ch)
  {
    forall ch
      ensures ch in refs.at <==> NamedAt(d, rel, ch)
      ensures ch in refs.elsewhere <==> NamedElsewhere(d, rel, ch)
    {
      ListingNames(d, l, rel, ch);
    }
  }

  lemma SweptIsPartly(d: Disk, trail: seq<Disk>, n: nat, at: set<Hash>, elsewhere: set<Hash>, rel: string, content: Hash)
    requires AllSwept(d, trail, n, at, elsewhere)
    requires forall ch :: ch in at <==> NamedAt(d, rel, ch)
    requires forall ch :: ch in elsewhere <==> NamedElsewhere(d, rel, ch)
    ensures forall i :: n <= i < |trail| ==> PartlyPurged(d, trail[i], rel, content)
  {
    forall i | n <= i < |trail| ensures PartlyPurged(d, trail[i], rel, content) {
      assert Swept(d, trail[i], at, elsewhere);
    }
  }
}
