/** Pulling a peer's history (`sync::pull`), from an honest peer and from an arbitrary one. */
module Sync {
  import opened Core
  import opened Storage
  import opened Snapshots
  import opened History
  import opened Wire

  const MAX_MANIFESTS_PER_PULL := 100_000
  const MAX_OBJECTS_PER_PULL := 8_000_000
  const HAVE_BATCH := 500_000

  /** The other end: a store behind `respond_frame`, over a transport that may or may not fail, or
      anything at all. */
  datatype Remote = Honest(d: Disk, reliable: bool) | Arbitrary

  ghost predicate Answers(d: Disk, request: Bytes) {
    RespondFrame(d, request).Ok? && |RespondFrame(d, request).value| <= 67_108_864
  }

  /** Send a request and read one frame back. */
  method Ask(remote: Remote, request: Bytes) returns (r: Result<Bytes>)
    ensures remote.Honest? && r.Ok? ==> r == RespondFrame(remote.d, request)
    ensures remote.Honest? && remote.reliable && Answers(remote.d, request) ==> r.Ok?
    ensures r.Ok? ==> |r.value| <= 67_108_864
  {
    var fails: bool := *;
    match remote
    case Arbitrary =>
      var reply: Bytes := *;
      return if fails || |reply| > MAX_FRAME then Err(Io) else Ok(reply);
    case Honest(d, reliable) =>
      var reply :- RespondFrame(d, request);
      return if (fails && !reliable) || |reply| > MAX_FRAME then Err(Io) else Ok(reply);
  }

  /** The disk `d` mentions `h`: as HEAD, as a name, as a parent or as a chunk. */
  ghost predicate OnDisk(d: Disk, h: Hash) {
    || d.head == Some(h) || h in d.manifests || h in d.objects
    || exists g :: g in d.manifests && MentionedBy(d.manifests[g], h)
  }

  ghost predicate MentionedBy(data: Bytes, h: Hash) {
    && Deserialize(data).Ok?
    && (Deserialize(data).value.parent == Some(h) || exists e :: e in Deserialize(data).value.files && h in e.chunks)
  }

  /** An honest peer whose hashes all survive the wire. */
  ghost predicate Understood(remote: Remote) {
    remote.Honest? && forall h :: OnDisk(remote.d, h) ==> Coded(h)
  }

  /** An understood peer mentions `h`. */
  ghost predicate KnownTo(remote: Remote, h: Hash) { Understood(remote) ==> OnDisk(remote.d, h) }

  // ---------------------------------------------------------------------------------------------
  // What the peer must have for a pull to be complete
  // ---------------------------------------------------------------------------------------------

  /** Every manifest of the peer that parses has all its chunks there. */
  ghost predicate Complete(d: Disk) {
    forall h :: h in d.manifests && Deserialize(d.manifests[h]).Ok? ==>
      ChunksPresent(d.objects, Deserialize(d.manifests[h]).value.files)
  }

  /** Every stored manifest loads, its parent is stored, and its chunks are. */
  ghost predicate Closed(d: Disk) {
    forall h :: h in d.manifests ==> && Loadable(d, h) && StoredId(d, Load(d, h).value.parent)
                                     && ChunksPresent(d.objects, Load(d, h).value.files)
  }

  // ---------------------------------------------------------------------------------------------
  // The walk over the manifests
  // ---------------------------------------------------------------------------------------------

  /** The chunks that the manifests `ids` name. */
  ghost predicate NamedBy(d: Disk, ids: set<Hash>, ch: Hash) {
    exists h, e :: h in ids && Loadable(d, h) && e in Load(d, h).value.files && ch in e.chunks
  }

  /** `d` is `d0` with the manifests `visited` added. */
  ghost predicate Fetched(d0: Disk, d: Disk, visited: set<Hash>) {
    && Grows(d0, d) && d.objects == d0.objects
    && (forall h :: h in d.manifests <==> h in d0.manifests || h in visited)
    && (forall h :: h in visited ==> h !in d0.manifests)
    && |visited| <= 100_000
  }

  /** Every parent of `visited` is stored or is the next to be looked at. */
  ghost predicate Linked(d: Disk, visited: set<Hash>, next: Option<Hash>) {
    forall h :: h in visited ==> Loadable(d, h) && (Load(d, h).value.parent == next || StoredId(d, Load(d, h).value.parent))
  }

  /** `needed` lists the chunks that the manifests `visited` name. */
  ghost predicate Collected(d: Disk, visited: set<Hash>, needed: seq<Hash>) {
    forall ch :: ch in needed <==> NamedBy(d, visited, ch)
  }

  ghost predicate SameManifest(d: Disk, d': Disk, h: Hash) {
    h in d.manifests && h in d'.manifests && d'.manifests[h] == d.manifests[h]
  }

  /** What was fetched from an honest peer is what the peer stores. */
  ghost predicate SameAsPeer(remote: Remote, d: Disk, visited: set<Hash>) {
    Understood(remote) ==> forall h :: h in visited ==> SameManifest(remote.d, d, h)
  }

  function ChunkList(files: seq<FileEntry>): (r: seq<Hash>)
    ensures forall ch :: ch in r <==> exists e :: e in files && ch in e.chunks
  {
    if files == [] then []
    else
      var init, last := files[..|files| - 1], files[|files| - 1];
      assert files == init + [last];
      ChunkList(init) + last.chunks
  }

  lemma {:induction false} ChunkListLength(files: seq<FileEntry>)
    ensures |ChunkList(files)| == TotalChunks(files)
  {
    if files != [] {
      ChunkListLength(files[..|files| - 1]);
    }
  }

  // ---------------------------------------------------------------------------------------------
  // How far an honest peer leads
  // ---------------------------------------------------------------------------------------------

  /** The manifests to be fetched from a peer with disk `rd`, from `id` on, by one who has those in `have`. */
  function Route(rd: Disk, have: set<Hash>, id: Option<Hash>): seq<Hash>
    decreases rd.manifests.Keys - have
  {
    if id.None? || id.value in have || id.value !in rd.manifests || Load(rd, id.value).Err? then []
    else [id.value] + Route(rd, have + {id.value}, Load(rd, id.value).value.parent)
  }

  /** How many chunks the manifests `ids` of `rd` name, repetitions included. */
  function ChunksOn(rd: Disk, ids: seq<Hash>): nat {
    if ids == [] then 0
    else
      var last := Load(rd, ids[|ids| - 1]);
      ChunksOn(rd, ids[..|ids| - 1]) + if last.Ok? then TotalChunks(last.value.files) else 0
  }

  /** The way from `id` is short enough, and names few enough chunks, for one pull. */
  predicate RouteFits(rd: Disk, have: set<Hash>, id: Option<Hash>) {
    && |Route(rd, have, id)| <= 100_000
    && ChunksOn(rd, Route(rd, have, id)) <= 8_000_000
  }

  lemma {:induction false} ChunksOnGrow(rd: Disk, front: seq<Hash>, back: seq<Hash>)
    ensures ChunksOn(rd, front) <= ChunksOn(rd, front + back)
  {
    if back == [] {
      assert front + back == front;
    } else {
      ChunksOnGrow(rd, front, back[..|back| - 1]);
      assert (front + back)[..|front + back| - 1] == front + back[..|back| - 1];
    }
  }

  /** `done` is the way from `head` as far as `next`, past nothing in `have`. */
  ghost predicate WayTo(rd: Disk, have: set<Hash>, head: Hash, done: seq<Hash>, next: Option<Hash>)
    decreases |done|
  {
    if done == [] then next == Some(head)
    else
      var init, last := done[..|done| - 1], done[|done| - 1];
      && WayTo(rd, have, head, init, Some(last))
      && last in rd.manifests && last !in have && last !in init
      && Load(rd, last).Ok? && Load(rd, last).value.parent == next
  }

  lemma WayStep(rd: Disk, have: set<Hash>, head: Hash, done: seq<Hash>, cur: Hash)
    requires WayTo(rd, have, head, done, Some(cur))
    requires cur in rd.manifests && cur !in have && cur !in done && Load(rd, cur).Ok?
    ensures WayTo(rd, have, head, done + [cur], Load(rd, cur).value.parent)
    ensures ChunksOn(rd, done + [cur]) == ChunksOn(rd, done) + TotalChunks(Load(rd, cur).value.files)
  {
    assert (done + [cur])[..|done|] == done;
  }

  /** The way so far is the beginning of the route. */
  lemma {:induction false} WayIsRoute(rd: Disk, have: set<Hash>, head: Hash, done: seq<Hash>, next: Option<Hash>)
    requires WayTo(rd, have, head, done, next)
    ensures Route(rd, have, Some(head)) == done + Route(rd, have + Elements(done), next)
    decreases |done|
  {
    if done == [] {
      assert have + Elements(done) == have && [] + Route(rd, have, next) == Route(rd, have, next);
    } else {
      var init, last := done[..|done| - 1], done[|done| - 1];
      WayIsRoute(rd, have, head, init, Some(last));
      assert done == init + [last];
      assert have + Elements(init) + {last} == have + Elements(done);
      ConcatAssociates(init, [last], Route(rd, have + Elements(done), next));
    }
  }

  /** A way that is too long, or names too many chunks, makes the route so. */
  lemma WayTooLong(rd: Disk, have: set<Hash>, head: Hash, done: seq<Hash>, next: Option<Hash>)
    requires WayTo(rd, have, head, done, next)
    requires |done| > MAX_MANIFESTS_PER_PULL || ChunksOn(rd, done) > MAX_OBJECTS_PER_PULL
    ensures !RouteFits(rd, have, Some(head))
  {
    WayIsRoute(rd, have, head, done, next);
    ChunksOnGrow(rd, done, Route(rd, have + Elements(done), next));
  }

  /** A way that has come to its end is the route. */
  lemma WayEnds(rd: Disk, have: set<Hash>, head: Hash, done: seq<Hash>, next: Option<Hash>)
    requires WayTo(rd, have, head, done, next) && (next.Some? ==> next.value in have || next.value in done)
    ensures Route(rd, have, Some(head)) == done
  {
    WayIsRoute(rd, have, head, done, next);
    assert done + [] == done;
  }

  lemma StoredManifest(d: Disk, d': Disk, cur: Hash, data: Bytes, m: Manifest)
    requires cur !in d.manifests && HashBytes(data) == cur && d' == WithManifest(d, data)
    requires Deserialize(data) == Ok(m) && Acceptable(m)
    ensures Grows(d, d') && d'.objects == d.objects && d'.manifests.Keys == d.manifests.Keys + {cur}
    ensures Load(d', cur) == Ok(m)
    ensures forall h :: h in d.manifests ==> Load(d', h) == Load(d, h)
  {
  }

  lemma FetchedOneMore(d0: Disk, d: Disk, d': Disk, visited: set<Hash>, cur: Hash)
    requires Fetched(d0, d, visited) && cur !in d.manifests && |visited| < MAX_MANIFESTS_PER_PULL
    requires Grows(d, d') && d'.objects == d.objects && (forall h :: h in d'.manifests <==> h in d.manifests || h == cur)
    ensures Fetched(d0, d', visited + {cur})
  {
    GrowMore(d0, d, d');
  }

  lemma LinkedOneMore(d: Disk, d': Disk, visited: set<Hash>, cur: Hash, m: Manifest)
    requires Linked(d, visited, Some(cur))
    requires (forall h :: h in d'.manifests <==> h in d.manifests || h == cur) && Load(d', cur) == Ok(m)
    requires forall h :: h in d.manifests ==> Load(d', h) == Load(d, h)
    ensures Linked(d', visited + {cur}, m.parent)
  {
    forall h | h in visited + {cur}
      ensures Loadable(d', h) && (Load(d', h).value.parent == m.parent || StoredId(d', Load(d', h).value.parent))
    {
      assert cur in d'.manifests;
      if h in visited { assert Loadable(d, h); }
    }
  }

  lemma CollectedOneMore(d: Disk, d': Disk, visited: set<Hash>, needed: seq<Hash>, cur: Hash, m: Manifest)
    requires Collected(d, visited, needed)
    requires cur in d'.manifests && Load(d', cur) == Ok(m)
    requires forall h :: h in visited ==> Loadable(d, h) && Loadable(d', h) && Load(d', h) == Load(d, h)
    ensures Collected(d', visited + {cur}, needed + ChunkList(m.files))
  {
    var visited' := visited + {cur};
    forall ch ensures ch in needed + ChunkList(m.files) <==> NamedBy(d', visited', ch) {
      if NamedBy(d', visited', ch) {
        var h, e :| h in visited' && Loadable(d', h) && e in Load(d', h).value.files && ch in e.chunks;
        if h in visited { assert NamedBy(d, visited, ch); }
      }
      if NamedBy(d, visited, ch) {
        var h, e :| h in visited && Loadable(d, h) && e in Load(d, h).value.files && ch in e.chunks;
        assert h in visited' && Loadable(d', h);
      }
      if ch in ChunkList(m.files) {
        var e :| e in m.files && ch in e.chunks;
        assert cur in visited' && Loadable(d', cur) && e in Load(d', cur).value.files;
      }
    }
  }

  /** Fetch one manifest and store it, before looking at what it says. */
  method FetchManifest(store: Store, remote: Remote, cur: Hash) returns (r: Result<Bytes>)
    requires store.Valid()
    modifies store
    ensures store.Valid() && (store.trail == old(store.trail) || store.trail == old(store.trail) + [store.Now()])
    ensures r.Ok? ==> HashBytes(r.value) == cur && store.Now() == WithManifest(old(store.Now()), r.value)
    ensures r.Err? ==> store.Now() == old(store.Now())
    ensures r.Ok? && remote.Honest? && Coded(cur) ==> cur in remote.d.manifests && r.value == remote.d.manifests[cur]
    ensures remote.Honest? && Coded(cur) && remote.reliable && !store.faulty && ServesManifest(remote.d, cur) ==> r.Ok?
  {
    if remote.Honest? && Coded(cur) {
      RespondsManifest(remote.d, cur);
    }
    var reply :- Ask(remote, GetManifest(cur));
    if remote.Honest? && Coded(cur) {
      PayloadOfSized(if cur in remote.d.manifests then remote.d.manifests[cur] else []);
    }
    var data :- FramePayload(reply);
    if data == [] {
      return Err(Protocol);
    }
    var stored :- store.PutManifestAs(cur, data);
    return Ok(data);
  }

  /** The peer stores a manifest under `h` that fits in a frame. */
  ghost predicate ServesManifest(d: Disk, h: Hash) {
    h in d.manifests && HashBytes(d.manifests[h]) == h && d.manifests[h] != [] && |d.manifests[h]| + 8 <= 67_108_864
  }

  /** A peer that can serve every manifest it stores, and everything those refer to. */
  ghost predicate Servable(d: Disk) {
    && StoredId(d, d.head)
    && (forall h :: h in d.manifests ==> ServesManifest(d, h) && Loadable(d, h) && StoredId(d, Load(d, h).value.parent))
    && (forall h :: h in d.objects ==> ReadObject(d.objects, h).Ok? && d.objects[h] != [])
  }

  /** An honest, complete and reliable peer, and a disk that does not fail. */
  ghost predicate Smooth(store: Store, remote: Remote) {
    Understood(remote) && remote.reliable && !store.faulty && Servable(remote.d)
  }

  ghost predicate WithinCap(trail: seq<Disk>, n: nat, cap: nat) {
    forall i :: n <= i < |trail| ==> |trail[i].manifests| <= cap
  }

  lemma TrailGrows(d0: Disk, trail: seq<Disk>, trail': seq<Disk>, now: Disk, n: nat, cap: nat)
    requires AllGrow(d0, trail, n) && WithinCap(trail, n, cap) && n <= |trail|
    requires Grows(d0, now) && |now.manifests| <= cap
    requires trail' == trail || trail' == trail + [now]
    ensures AllGrow(d0, trail', n) && WithinCap(trail', n, cap) && trail <= trail'
  {
  }

  /** One turn of the walk: fetch, store, parse, validate. */
  method WalkOne(store: Store, remote: Remote, cur: Hash) returns (r: Result<Manifest>)
    requires store.Valid() && cur !in store.manifests
    modifies store
    ensures store.Valid() && (store.trail == old(store.trail) || store.trail == old(store.trail) + [store.Now()])
    ensures Grows(old(store.Now()), store.Now()) && |store.manifests| <= |old(store.manifests)| + 1
    ensures r.Ok? ==>
      && store.objects == old(store.objects) && Load(store.Now(), cur) == r
      && |store.manifests| == |old(store.manifests)| + 1
      && store.manifests.Keys == old(store.manifests.Keys) + {cur}
      && (forall h :: h in old(store.manifests) ==> Load(store.Now(), h) == Load(old(store.Now()), h))
    ensures r.Ok? && remote.Honest? && Coded(cur) ==>
      SameManifest(remote.d, store.Now(), cur)
    ensures Smooth(store, remote) && cur in remote.d.manifests ==> r.Ok?
  {
    ghost var d := store.Now();
    assert Understood(remote) && cur in remote.d.manifests ==> OnDisk(remote.d, cur);
    var data :- FetchManifest(store, remote, cur);
    assert store.manifests == d.manifests[cur := data];
    var m :- Deserialize(data);
    var valid := Validate(m);
    if valid.Err? {
      return Err(valid.error);
    }
    StoredManifest(d, store.Now(), cur, data, m);
    return Ok(m);
  }

  method PushChunks(needed0: seq<Hash>, files: seq<FileEntry>) returns (needed: seq<Hash>)
    ensures needed == needed0 + ChunkList(files)
  {
    needed := needed0;
    for n := 0 to |files|
      invariant needed == needed0 + ChunkList(files[..n])
    {
      assert files[..n + 1][..n] == files[..n];
      needed := needed + files[n].chunks;
    }
    assert files[..|files|] == files;
  }

  /** One turn of the walk has fetched `cur`, and `next` is what it names as its parent. */
  ghost predicate Stepped(remote: Remote, d: Disk, d': Disk, cur: Hash, next: Option<Hash>, needed: seq<Hash>, needed': seq<Hash>) {
    && cur !in d.manifests && Grows(d, d') && d'.objects == d.objects && d'.manifests.Keys == d.manifests.Keys + {cur}
    && (forall h :: h in d.manifests ==> Load(d', h) == Load(d, h))
    && Load(d', cur).Ok? && Load(d', cur).value.parent == next
    && needed' == needed + ChunkList(Load(d', cur).value.files)
    && (remote.Honest? && Coded(cur) ==> SameManifest(remote.d, d', cur))
  }

  /** Where the walk stands: the store, what is to be looked at, and the chunks listed. */
  datatype Stop = Stop(d: Disk, next: Option<Hash>, needed: seq<Hash>)

  /** The walk from `head` has fetched `done`, in this order, and `stops` are where it has stood. */
  ghost predicate Reached(remote: Remote, d0: Disk, head: Hash, stops: seq<Stop>, done: seq<Hash>)
    decreases |done|
  {
    if done == [] then stops == [Stop(d0, Some(head), [])]
    else
      && |stops| == |done| + 1
      && var init, last := done[..|done| - 1], done[|done| - 1];
         var was, now := stops[|done| - 1], stops[|done|];
         && Reached(remote, d0, head, stops[..|done|], init)
         && was.next == Some(last) && Stepped(remote, was.d, now.d, last, now.next, was.needed, now.needed)
  }

  lemma ReachedMore(remote: Remote, d0: Disk, head: Hash, stops: seq<Stop>, done: seq<Hash>, cur: Hash, now: Stop)
    requires Reached(remote, d0, head, stops, done) && |stops| == |done| + 1
    requires stops[|done|].next == Some(cur) && Stepped(remote, stops[|done|].d, now.d, cur, now.next, stops[|done|].needed, now.needed)
    ensures Reached(remote, d0, head, stops + [now], done + [cur])
  {
    var longer, more := done + [cur], stops + [now];
    assert longer[..|longer| - 1] == done && longer[|longer| - 1] == cur;
    assert more[..|longer|] == stops && more[|longer| - 1] == stops[|done|] && more[|longer|] == now;
  }

  lemma ElementsCount<T>(s: seq<T>)
    requires s != [] && s[|s| - 1] !in Elements(s[..|s| - 1])
    ensures |Elements(s)| == |Elements(s[..|s| - 1])| + 1
  {
    ElementsInit(s);
  }

  lemma ElementsMore<T>(s: seq<T>, x: T)
    ensures Elements(s + [x]) == Elements(s) + {x}
  {
  }

  lemma ElementsInit<T>(s: seq<T>)
    requires s != []
    ensures Elements(s) == Elements(s[..|s| - 1]) + {s[|s| - 1]} && s == s[..|s| - 1] + [s[|s| - 1]]
    ensures s[|s| - 1] in Elements(s[..|s| - 1]) <==> s[|s| - 1] in s[..|s| - 1]
  {
    assert s == s[..|s| - 1] + [s[|s| - 1]];
  }

  /** The walk has added `done` to the store. */
  ghost predicate HasFetched(d0: Disk, head: Hash, done: seq<Hash>, stop: Stop) {
    && Fetched(d0, stop.d, Elements(done)) && |Elements(done)| == |done| && |stop.d.manifests| == |d0.manifests| + |done|
    && (stop.next == Some(head) || head in stop.d.manifests)
    && (head in d0.manifests ==> done == [])
  }

  lemma HasFetchedMore(remote: Remote, d0: Disk, head: Hash, done: seq<Hash>, was: Stop, now: Stop)
    requires done != [] && |done| <= MAX_MANIFESTS_PER_PULL
    requires var init, last := done[..|done| - 1], done[|done| - 1];
      && HasFetched(d0, head, init, was) && was.next == Some(last) && Stepped(remote, was.d, now.d, last, now.next, was.needed, now.needed)
      && (init == [] ==> last == head && was.d == d0)
    ensures HasFetched(d0, head, done, now)
  {
    ElementsInit(done);
    ElementsCount(done);
    FetchedOneMore(d0, was.d, now.d, Elements(done[..|done| - 1]), done[|done| - 1]);
    assert |now.d.manifests.Keys| == |was.d.manifests.Keys| + 1;
  }

  /** What the walk has added to the store, whoever the peer is. */
  lemma {:induction false} ReachedFetched(remote: Remote, d0: Disk, head: Hash, stops: seq<Stop>, done: seq<Hash>)
    requires Reached(remote, d0, head, stops, done) && |done| <= MAX_MANIFESTS_PER_PULL
    ensures |stops| == |done| + 1 && HasFetched(d0, head, done, stops[|done|])
    decreases |done|
  {
    if done == [] {
      assert Elements(done) == {};
    } else {
      ReachedFetched(remote, d0, head, stops[..|done|], done[..|done| - 1]);
      HasFetchedMore(remote, d0, head, done, stops[|done| - 1], stops[|done|]);
    }
  }

  /** Every parent fetched is stored or comes next, and the list of chunks is complete. */
  lemma {:induction false} ReachedCollected(remote: Remote, d0: Disk, head: Hash, stops: seq<Stop>, done: seq<Hash>)
    requires Reached(remote, d0, head, stops, done) && |done| <= MAX_MANIFESTS_PER_PULL
    ensures |stops| == |done| + 1
    ensures var stop := stops[|done|];
      Linked(stop.d, Elements(done), stop.next) && Collected(stop.d, Elements(done), stop.needed)
    decreases |done|
  {
    if done != [] {
      var init, last := done[..|done| - 1], done[|done| - 1];
      var was, now := stops[|done| - 1], stops[|done|];
      ReachedCollected(remote, d0, head, stops[..|done|], init);
      ElementsInit(done);
      LinkedOneMore(was.d, now.d, Elements(init), last, Load(now.d, last).value);
      CollectedOneMore(was.d, now.d, Elements(init), was.needed, last, Load(now.d, last).value);
    }
  }

  /** From an understood peer comes what the peer stores. */
  lemma {:induction false} ReachedSame(remote: Remote, d0: Disk, head: Hash, stops: seq<Stop>, done: seq<Hash>)
    requires Reached(remote, d0, head, stops, done) && KnownTo(remote, head)
    ensures |stops| == |done| + 1
    ensures var stop := stops[|done|];
      SameAsPeer(remote, stop.d, Elements(done)) && (stop.next.Some? ==> KnownTo(remote, stop.next.value))
    decreases |done|
  {
    if done != [] && Understood(remote) {
      var init, last := done[..|done| - 1], done[|done| - 1];
      ReachedSame(remote, d0, head, stops[..|done|], init);
      ElementsInit(done);
      SameStep(remote, stops[|done| - 1].d, stops[|done|].d, Elements(init), last);
    }
  }

  /** What is fetched is new. */
  lemma ReachedNew(remote: Remote, d0: Disk, head: Hash, stops: seq<Stop>, done: seq<Hash>)
    requires Reached(remote, d0, head, stops, done) && |done| <= MAX_MANIFESTS_PER_PULL && done != []
    ensures done[|done| - 1] !in d0.manifests && done[|done| - 1] !in done[..|done| - 1]
  {
    var init, last := done[..|done| - 1], done[|done| - 1];
    ReachedFetched(remote, d0, head, stops[..|done|], init);
    assert last in init ==> last in Elements(init);
  }

  /** The walk follows the peer's own parents. */
  ghost predicate OnTheWay(rd: Disk, d0: Disk, head: Hash, done: seq<Hash>, stop: Stop) {
    && WayTo(rd, d0.manifests.Keys, head, done, stop.next) && StoredId(rd, stop.next)
    && ChunksOn(rd, done) == |stop.needed|
  }

  lemma OnTheWayMore(remote: Remote, d0: Disk, head: Hash, done: seq<Hash>, was: Stop, now: Stop)
    requires Understood(remote) && Servable(remote.d) && done != []
    requires OnTheWay(remote.d, d0, head, done[..|done| - 1], was) && was.next == Some(done[|done| - 1])
    requires done[|done| - 1] !in d0.manifests && done[|done| - 1] !in done[..|done| - 1]
    requires Stepped(remote, was.d, now.d, done[|done| - 1], now.next, was.needed, now.needed)
    ensures OnTheWay(remote.d, d0, head, done, now)
  {
    var init, last := done[..|done| - 1], done[|done| - 1];
    assert done == init + [last];
    SameStep(remote, was.d, now.d, {}, last);
    WayStep(remote.d, d0.manifests.Keys, head, init, last);
    ChunkListLength(Load(now.d, last).value.files);
  }

  /** From a peer that can serve all it has, the walk follows the peer's own parents. */
  lemma {:induction false} ReachedOnTheWay(remote: Remote, d0: Disk, head: Hash, stops: seq<Stop>, done: seq<Hash>)
    requires Reached(remote, d0, head, stops, done) && |done| <= MAX_MANIFESTS_PER_PULL
    requires Understood(remote) && Servable(remote.d) && head in remote.d.manifests
    ensures |stops| == |done| + 1 && OnTheWay(remote.d, d0, head, done, stops[|done|])
    decreases |done|
  {
    if done != [] {
      ReachedOnTheWay(remote, d0, head, stops[..|done|], done[..|done| - 1]);
      ReachedNew(remote, d0, head, stops, done);
      OnTheWayMore(remote, d0, head, done, stops[..|done|][|done| - 1], stops[|done|]);
    }
  }

  lemma SameStep(remote: Remote, d: Disk, d': Disk, visited: set<Hash>, cur: Hash)
    requires Understood(remote) && Grows(d, d') && SameManifest(remote.d, d', cur)
    ensures Load(d', cur).Ok? && Load(d', cur).value.parent.Some? ==> OnDisk(remote.d, Load(d', cur).value.parent.value)
    ensures SameAsPeer(remote, d, visited) ==> SameAsPeer(remote, d', visited + {cur})
    ensures Load(remote.d, cur) == Load(d', cur)
  {
    if Load(d', cur).Ok? && Load(d', cur).value.parent.Some? {
      assert MentionedBy(remote.d.manifests[cur], Load(d', cur).value.parent.value);
    }
    if SameAsPeer(remote, d, visited) {
      forall h | h in visited + {cur} ensures SameManifest(remote.d, d', h) {
        assert h == cur || SameManifest(remote.d, d, h);
      }
    }
  }

  lemma LinkedDone(d: Disk, visited: set<Hash>, next: Option<Hash>)
    requires Linked(d, visited, next) && StoredId(d, next)
    ensures Linked(d, visited, None)
  {
  }

  /** A smooth pull that breaks off on its way has met one of the caps. */
  lemma TooFar(remote: Remote, d0: Disk, head: Hash, stops: seq<Stop>, done: seq<Hash>, cur: Hash)
    requires Reached(remote, d0, head, stops, done) && |done| <= MAX_MANIFESTS_PER_PULL && |stops| == |done| + 1
    requires stops[|done|].next == Some(cur) && cur !in stops[|done|].d.manifests
    requires Understood(remote) && Servable(remote.d) && head in remote.d.manifests
    ensures cur in remote.d.manifests && Load(remote.d, cur).Ok?
    ensures |done| == MAX_MANIFESTS_PER_PULL ==> !RouteFits(remote.d, d0.manifests.Keys, Some(head))
    ensures |stops[|done|].needed| + TotalChunks(Load(remote.d, cur).value.files) > MAX_OBJECTS_PER_PULL ==>
              !RouteFits(remote.d, d0.manifests.Keys, Some(head))
  {
    ReachedOnTheWay(remote, d0, head, stops, done);
    ReachedFetched(remote, d0, head, stops, done);
    assert cur in done ==> cur in Elements(done);
    WayStep(remote.d, d0.manifests.Keys, head, done, cur);
    var m := Load(remote.d, cur).value;
    if |done| == MAX_MANIFESTS_PER_PULL || |stops[|done|].needed| + TotalChunks(m.files) > MAX_OBJECTS_PER_PULL {
      WayTooLong(remote.d, d0.manifests.Keys, head, done + [cur], m.parent);
    }
  }

  /** A walk that has come to its end has followed a route within the caps. */
  lemma FarEnough(remote: Remote, d0: Disk, head: Hash, stops: seq<Stop>, done: seq<Hash>)
    requires Reached(remote, d0, head, stops, done) && |done| <= MAX_MANIFESTS_PER_PULL && |stops| == |done| + 1
    requires StoredId(stops[|done|].d, stops[|done|].next) && |stops[|done|].needed| <= MAX_OBJECTS_PER_PULL
    requires Understood(remote) && Servable(remote.d) && head in remote.d.manifests
    ensures RouteFits(remote.d, d0.manifests.Keys, Some(head))
  {
    ReachedOnTheWay(remote, d0, head, stops, done);
    ReachedFetched(remote, d0, head, stops, done);
    var next := stops[|done|].next;
    assert next.Some? && next.value in Elements(done) ==> next.value in done;
    WayEnds(remote.d, d0.manifests.Keys, head, done, next);
  }

  /** Fetch `cur`, list its chunks, and say where the chain goes on. */
  method Advance(store: Store, remote: Remote, cur: Hash, needed: seq<Hash>) returns (r: Result<(Option<Hash>, seq<Hash>)>)
    requires store.Valid() && cur !in store.manifests
    modifies store
    ensures store.Valid() && (store.trail == old(store.trail) || store.trail == old(store.trail) + [store.Now()])
    ensures Grows(old(store.Now()), store.Now()) && |store.manifests| <= |old(store.manifests)| + 1
    ensures r.Ok? ==>
      Stepped(remote, old(store.Now()), store.Now(), cur, r.value.0, needed, r.value.1) && |r.value.1| <= MAX_OBJECTS_PER_PULL
    ensures Smooth(store, remote) && cur in remote.d.manifests && Load(remote.d, cur).Ok? ==>
      r.Ok? || (r.error == TooLarge && |needed| + TotalChunks(Load(remote.d, cur).value.files) > MAX_OBJECTS_PER_PULL)
  {
    assert Understood(remote) && cur in remote.d.manifests ==> OnDisk(remote.d, cur);
    var m :- WalkOne(store, remote, cur);
    var longer := PushChunks(needed, m.files);
    ChunkListLength(m.files);
    if |longer| > MAX_OBJECTS_PER_PULL {
      return Err(TooLarge);
    }
    return Ok((m.parent, longer));
  }

  /** From position `n` on, the trail grows out of `d0`, by no more manifests than one pull may fetch. */
  ghost predicate WalkTrail(d0: Disk, trail: seq<Disk>, n: nat)
    decreases |trail|
  {
    |trail| <= n ||
    var init, last := trail[..|trail| - 1], trail[|trail| - 1];
    WalkTrail(d0, init, n) && Grows(d0, last) && |last.manifests| <= |d0.manifests| + MAX_MANIFESTS_PER_PULL
  }

  lemma {:induction false} WalkTrailMeans(d0: Disk, trail: seq<Disk>, n: nat)
    requires WalkTrail(d0, trail, n)
    ensures AllGrow(d0, trail, n) && WithinCap(trail, n, |d0.manifests| + MAX_MANIFESTS_PER_PULL)
    decreases |trail|
  {
    if |trail| > n {
      var init := trail[..|trail| - 1];
      WalkTrailMeans(d0, init, n);
      assert trail == init + [trail[|trail| - 1]];
      TrailGrows(d0, init, trail, trail[|trail| - 1], n, |d0.manifests| + MAX_MANIFESTS_PER_PULL);
    }
  }

  lemma WalkTrailGrows(d0: Disk, trail: seq<Disk>, trail': seq<Disk>, now: Disk, n: nat)
    requires WalkTrail(d0, trail, n) && n <= |trail| && (trail' == trail || trail' == trail + [now])
    requires Grows(d0, now) && |now.manifests| <= |d0.manifests| + MAX_MANIFESTS_PER_PULL
    ensures WalkTrail(d0, trail', n) && trail <= trail'
  {
    assert (trail + [now])[..|trail|] == trail;
  }

  /** One turn of the walk: the cap on manifests, the next manifest, the cap on objects. */
  method WalkNext(store: Store, remote: Remote, head: Hash, cur: Hash, seen: set<Hash>, needed: seq<Hash>,
                  ghost d0: Disk, ghost stops: seq<Stop>, ghost done: seq<Hash>, ghost start: nat)
    returns (r: Result<(Option<Hash>, seq<Hash>)>, visited: set<Hash>)
    requires store.Valid() && cur !in store.manifests && seen == Elements(done) && |done| <= MAX_MANIFESTS_PER_PULL
    requires Reached(remote, d0, head, stops, done) && |stops| == |done| + 1 && stops[|done|] == Stop(store.Now(), Some(cur), needed)
    requires start <= |store.trail| && WalkTrail(d0, store.trail, start)
    modifies store
    ensures store.Valid() && old(store.trail) <= store.trail && WalkTrail(d0, store.trail, start)
    ensures visited == Elements(done + [cur]) && |visited| == |done| + 1
    ensures r.Ok? ==>
      && Reached(remote, d0, head, stops + [Stop(store.Now(), r.value.0, r.value.1)], done + [cur])
      && |done| < MAX_MANIFESTS_PER_PULL && |r.value.1| <= MAX_OBJECTS_PER_PULL && head !in d0.manifests
    ensures Smooth(store, remote) && head in remote.d.manifests && r.Err? ==>
      r.error == TooLarge && !RouteFits(remote.d, d0.manifests.Keys, Some(head))
  {
    ghost var d, trail := store.Now(), store.trail;
    ReachedFetched(remote, d0, head, stops, done);
    ElementsMore(done, cur);
    if cur in seen {
      assert false;
    }
    visited := seen + {cur};
    if Smooth(store, remote) && head in remote.d.manifests {
      TooFar(remote, d0, head, stops, done, cur);
    }
    if |visited| > MAX_MANIFESTS_PER_PULL {
      r := Err(TooLarge);
      return;
    }
    r := Advance(store, remote, cur, needed);
    GrowMore(d0, d, store.Now());
    WalkTrailGrows(d0, trail, store.trail, store.Now(), start);
    if r.Ok? {
      ReachedMore(remote, d0, head, stops, done, cur, Stop(store.Now(), r.value.0, r.value.1));
      ReachedFetched(remote, d0, head, stops + [Stop(store.Now(), r.value.0, r.value.1)], done + [cur]);
    }
  }

  /** Walk the peer's chain from `head` until something stored already, or the beginning.  The guard
      against cycles can never fire: what was visited is stored, and the walk stops there. */
  method WalkOn(store: Store, remote: Remote, head: Hash, ghost d0: Disk)
    returns (r: Result<(seq<Hash>, nat)>, ghost stops: seq<Stop>, ghost done: seq<Hash>)
    requires store.Valid() && store.Now() == d0
    modifies store
    ensures store.Valid() && old(store.trail) <= store.trail
    ensures WalkTrail(d0, store.trail, |old(store.trail)|)
    ensures r.Ok? ==>
      && Reached(remote, d0, head, stops, done) && |done| <= MAX_MANIFESTS_PER_PULL
      && |stops| == |done| + 1 && stops[|done|].d == store.Now() && stops[|done|].needed == r.value.0
      && StoredId(store.Now(), stops[|done|].next) && |r.value.0| <= MAX_OBJECTS_PER_PULL && r.value.1 == |done|
    ensures Smooth(store, remote) && head in remote.d.manifests && r.Err? ==>
      r.error == TooLarge && !RouteFits(remote.d, d0.manifests.Keys, Some(head))
    ensures head in d0.manifests ==> r.Ok?
  {
    ghost var start := |store.trail|;
    var seen: set<Hash> := {};
    var needed: seq<Hash> := [];
    var next := Some(head);
    stops, done := [Stop(d0, next, needed)], [];
    while next.Some? && next.value !in store.manifests
      invariant store.Valid() && old(store.trail) <= store.trail
      invariant WalkTrail(d0, store.trail, start)
      invariant Reached(remote, d0, head, stops, done) && seen == Elements(done)
      invariant |stops| == |done| + 1 && stops[|done|] == Stop(store.Now(), next, needed)
      invariant |seen| == |done| <= MAX_MANIFESTS_PER_PULL && |needed| <= MAX_OBJECTS_PER_PULL
      invariant head in d0.manifests ==> next == Some(head) && store.Now() == d0
      decreases MAX_MANIFESTS_PER_PULL - |done|
    {
      var step, visited := WalkNext(store, remote, head, next.value, seen, needed, d0, stops, done, start);
      if step.Err? {
        r := Err(step.error);
        return;
      }
      seen := visited;
      done := done + [next.value];
      next, needed := step.value.0, step.value.1;
      stops := stops + [Stop(store.Now(), next, needed)];
    }
    r := Ok((needed, |seen|));
  }

  /** The same, with what it means. */
  method Walk(store: Store, remote: Remote, head: Hash) returns (r: Result<(seq<Hash>, nat)>, ghost visited: set<Hash>)
    requires store.Valid()
    modifies store
    ensures store.Valid() && old(store.trail) <= store.trail
    ensures Grows(old(store.Now()), store.Now()) && AllGrow(old(store.Now()), store.trail, |old(store.trail)|)
    ensures WithinCap(store.trail, |old(store.trail)|, |old(store.manifests)| + 100_000)
    ensures r.Ok? ==>
      && Fetched(old(store.Now()), store.Now(), visited) && Linked(store.Now(), visited, None)
      && Collected(store.Now(), visited, r.value.0) && r.value.1 == |visited| && head in store.manifests
      && |store.manifests| == |old(store.manifests)| + |visited|
    ensures r.Ok? && KnownTo(remote, head) ==> SameAsPeer(remote, store.Now(), visited)
    ensures Smooth(store, remote) && head in remote.d.manifests ==>
      (r.Ok? <==> RouteFits(remote.d, old(store.manifests.Keys), Some(head))) && (r.Err? ==> r.error == TooLarge)
    ensures head in old(store.manifests) ==> r == Ok(([], 0)) && visited == {} && store.Now() == old(store.Now())
  {
    visited := {};
    ghost var d0 := store.Now();
    ghost var stops, done;
    r, stops, done := WalkOn(store, remote, head, d0);
    WalkTrailMeans(d0, store.trail, |old(store.trail)|);
    if r.Ok? {
      visited := Elements(done);
      ReachedFetched(remote, d0, head, stops, done);
      ReachedCollected(remote, d0, head, stops, done);
      LinkedDone(store.Now(), visited, stops[|done|].next);
      if KnownTo(remote, head) {
        ReachedSame(remote, d0, head, stops, done);
      }
      if Smooth(store, remote) && head in remote.d.manifests {
        FarEnough(remote, d0, head, stops, done);
      }
    }
  }

  // ---------------------------------------------------------------------------------------------
  // Fetching the chunks
  // ---------------------------------------------------------------------------------------------

  /** Sort and deduplicate; the order does not matter here. */
  method Distinct(needed: seq<Hash>) returns (wanted: seq<Hash>)
    ensures forall h :: h in wanted <==> h in needed
    ensures |wanted| == |set h | h in needed|
  {
    wanted := [];
    var todo := set h | h in needed;
    ghost var all := todo;
    while todo != {}
      invariant todo <= all
      invariant forall h :: h in wanted <==> h in all && h !in todo
      invariant |wanted| + |todo| == |all|
    {
      var h :| h in todo;
      todo := todo - {h};
      wanted := wanted + [h];
    }
  }

  method FetchObject(store: Store, remote: Remote, h: Hash) returns (r: Result<()>)
    requires store.Valid() && h !in store.objects
    modifies store
    ensures store.Valid() && (store.trail == old(store.trail) || store.trail == old(store.trail) + [store.Now()])
    ensures Grows(old(store.Now()), store.Now()) && store.manifests == old(store.manifests)
    ensures r.Ok? ==> h in store.objects && |store.objects| == |old(store.objects)| + 1
    ensures forall g :: g in store.objects ==> g in old(store.objects) || g == h
    ensures Smooth(store, remote) && h in remote.d.objects ==> r.Ok?
  {
    if Understood(remote) && h in remote.d.objects {
      assert OnDisk(remote.d, h);
      RespondsObject(remote.d, h);
      var read := ReadObject(remote.d.objects, h);
      var data := if read.Ok? then read.value else [];
      PayloadOfSized(data);
    }
    var reply :- Ask(remote, GetObject(h));
    var data :- FramePayload(reply);
    if data == [] {
      return Err(Protocol);
    }
    r := store.PutObjectAs(h, data);
  }

  /** The peer does not have `h`, as far as an understood peer can tell. */
  ghost predicate Denied(remote: Remote, h: Hash) { Understood(remote) ==> h !in remote.d.objects }

  /** Fetch `h` when it was offered and is missing; say whether it was fetched. */
  method FetchIfOffered(store: Store, remote: Remote, h: Hash, offered: bool) returns (r: Result<bool>)
    requires store.Valid()
    modifies store
    ensures store.Valid() && (store.trail == old(store.trail) || store.trail == old(store.trail) + [store.Now()])
    ensures Grows(old(store.Now()), store.Now()) && store.manifests == old(store.manifests)
    ensures forall g :: g in store.objects ==> g in old(store.objects) || g == h
    ensures r.Ok? ==> |store.objects| == |old(store.objects)| + if r.value then 1 else 0
    ensures r.Ok? ==> h in store.objects || !offered
    ensures Smooth(store, remote) && (offered ==> h in remote.d.objects) ==> r.Ok?
  {
    if offered && h !in store.objects {
      var got :- FetchObject(store, remote, h);
      return Ok(true);
    }
    return Ok(false);
  }

  /** `d` is `d0` with more objects, all among `wanted`. */
  ghost predicate FetchedFrom(d0: Disk, d: Disk, wanted: seq<Hash>) {
    && Grows(d0, d) && d.manifests == d0.manifests
    && forall h :: h in d.objects ==> h in d0.objects || h in wanted
  }

  /** The peer knows every hash it is asked for. */
  ghost predicate AllKnown(remote: Remote, wanted: seq<Hash>) { forall h :: h in wanted ==> KnownTo(remote, h) }

  /** What the peer says of a batch. */
  method AskHave(remote: Remote, batch: seq<Hash>) returns (r: Result<Bytes>)
    requires |batch| <= 500_000
    ensures r.Ok? ==> |r.value| == |batch|
    ensures r.Ok? && Understood(remote) && AllKnown(remote, batch) ==>
      forall i :: 0 <= i < |batch| ==> (r.value[i] == 1 <==> batch[i] in remote.d.objects)
    ensures Understood(remote) && remote.reliable && AllKnown(remote, batch) ==> r.Ok?
  {
    if Understood(remote) && AllKnown(remote, batch) {
      forall h | h in batch ensures Coded(h) { assert KnownTo(remote, h); }
      RespondsHave(remote.d, batch);
      assert Answers(remote.d, Have(batch));
    }
    var have :- Ask(remote, Have(batch));
    return if |have| != |batch| then Err(Protocol) else Ok(have);
  }

  /** The first `i` hashes of the batch are dealt with. */
  ghost predicate BatchSoFar(d0: Disk, d: Disk, batch: seq<Hash>, i: nat, fetched: nat, denied: set<Hash>)
    requires i <= |batch|
  {
    && FetchedFrom(d0, d, batch)
    && fetched <= i && |d.objects| == |d0.objects| + fetched
    && forall h :: h in batch[..i] ==> h in d.objects || h in denied
  }

  /** The next hash of the batch. */
  method FetchNext(store: Store, remote: Remote, batch: seq<Hash>, i: nat, offered: bool, fetched: nat, ghost denied: set<Hash>,
                   ghost d0: Disk)
    returns (r: Result<nat>, ghost refused: set<Hash>)
    requires store.Valid() && i < |batch| && BatchSoFar(d0, store.Now(), batch, i, fetched, denied)
    modifies store
    ensures store.Valid() && (store.trail == old(store.trail) || store.trail == old(store.trail) + [store.Now()])
    ensures FetchedFrom(d0, store.Now(), batch)
    ensures r.Ok? ==> BatchSoFar(d0, store.Now(), batch, i + 1, r.value, refused)
    ensures refused == if offered then denied else denied + {batch[i]}
    ensures Smooth(store, remote) && (offered ==> batch[i] in remote.d.objects) ==> r.Ok?
  {
    refused := if offered then denied else denied + {batch[i]};
    ghost var d := store.Now();
    assert batch[i] in batch;
    TakeOneMore(batch, i);
    var got := FetchIfOffered(store, remote, batch[i], offered);
    GrowMore(d0, d, store.Now());
    if got.Err? {
      r := Err(got.error);
      return;
    }
    r := Ok(if got.value then fetched + 1 else fetched);
  }

  /** One HAVE request and the object requests that follow from it. */
  method FetchBatch(store: Store, remote: Remote, batch: seq<Hash>) returns (r: Result<(nat, nat)>, ghost denied: set<Hash>)
    requires store.Valid() && |batch| <= 500_000
    modifies store
    ensures store.Valid() && old(store.trail) <= store.trail
    ensures FetchedFrom(old(store.Now()), store.Now(), batch) && AllGrow(old(store.Now()), store.trail, |old(store.trail)|)
    ensures WithinCap(store.trail, |old(store.trail)|, |store.manifests|)
    ensures r.Ok? ==>
      && r.value.0 + r.value.1 == |batch| && |store.objects| == |old(store.objects)| + r.value.0
      && (forall h :: h in batch ==> h in store.objects || h in denied)
    ensures AllKnown(remote, batch) ==> forall h :: h in denied ==> Denied(remote, h)
    ensures Smooth(store, remote) && AllKnown(remote, batch) ==> r.Ok?
  {
    denied := {};
    var have :- AskHave(remote, batch);
    ghost var d0, cap, start := store.Now(), |store.manifests|, |store.trail|;
    var fetched := 0;
    for i := 0 to |batch|
      invariant store.Valid() && old(store.trail) <= store.trail
      invariant AllGrow(d0, store.trail, start) && WithinCap(store.trail, start, cap)
      invariant BatchSoFar(d0, store.Now(), batch, i, fetched, denied)
      invariant AllKnown(remote, batch) ==> forall h :: h in denied ==> Denied(remote, h)
    {
      ghost var trail := store.trail;
      var got;
      got, denied := FetchNext(store, remote, batch, i, have[i] == 1, fetched, denied, d0);
      TrailGrows(d0, trail, store.trail, store.Now(), start, cap);
      if got.Err? {
        r := Err(got.error);
        return;
      }
      fetched := got.value;
    }
    assert batch[..|batch|] == batch;
    r := Ok((fetched, |batch| - fetched));
  }

  lemma KnownPart(remote: Remote, wanted: seq<Hash>, i: nat, j: nat)
    requires i <= j <= |wanted|
    ensures AllKnown(remote, wanted) ==> AllKnown(remote, wanted[i..j])
  {
  }

  lemma FetchedMore(d0: Disk, d: Disk, d': Disk, wanted: seq<Hash>, i: nat, j: nat)
    requires i <= j <= |wanted| && FetchedFrom(d0, d, wanted) && FetchedFrom(d, d', wanted[i..j])
    ensures FetchedFrom(d0, d', wanted)
  {
    GrowMore(d0, d, d');
  }

  /** All batches. */
  method FetchAll(store: Store, remote: Remote, wanted: seq<Hash>) returns (r: Result<(nat, nat)>, ghost denied: set<Hash>)
    requires store.Valid()
    modifies store
    ensures store.Valid() && old(store.trail) <= store.trail
    ensures FetchedFrom(old(store.Now()), store.Now(), wanted) && AllGrow(old(store.Now()), store.trail, |old(store.trail)|)
    ensures WithinCap(store.trail, |old(store.trail)|, |store.manifests|)
    ensures r.Ok? ==>
      && r.value.0 + r.value.1 == |wanted| && |store.objects| == |old(store.objects)| + r.value.0
      && (forall h :: h in wanted ==> h in store.objects || h in denied)
    ensures AllKnown(remote, wanted) ==> forall h :: h in denied ==> Denied(remote, h)
    ensures Smooth(store, remote) && AllKnown(remote, wanted) ==> r.Ok?
  {
    denied := {};
    ghost var d0, cap := store.Now(), |store.manifests|;
    var fetched: nat, at := 0, 0;
    while at < |wanted|
      invariant 0 <= at <= |wanted| && fetched <= at
      invariant store.Valid() && old(store.trail) <= store.trail && FetchedFrom(d0, store.Now(), wanted)
      invariant AllGrow(d0, store.trail, |old(store.trail)|) && WithinCap(store.trail, |old(store.trail)|, cap)
      invariant |store.objects| == |d0.objects| + fetched
      invariant forall h :: h in wanted[..at] ==> h in store.objects || h in denied
      invariant AllKnown(remote, wanted) ==> forall h :: h in denied ==> Denied(remote, h)
    {
      var end := if at + HAVE_BATCH < |wanted| then at + HAVE_BATCH else |wanted|;
      ghost var d, trail := store.Now(), store.trail;
      SplitTake(wanted, at, end);
      KnownPart(remote, wanted, at, end);
      var got, refused := FetchBatch(store, remote, wanted[at..end]);
      FetchedMore(d0, d, store.Now(), wanted, at, end);
      BatchTrail(d0, d, trail, store.trail, |old(store.trail)|, cap);
      if got.Err? {
        r := Err(got.error);
        return;
      }
      denied := denied + refused;
      fetched := fetched + got.value.0;
      at := end;
    }
    assert wanted[..at] == wanted;
    var skipped: nat := |wanted| - fetched;
    r := Ok((fetched, skipped));
  }

  lemma SplitTake<T>(s: seq<T>, i: nat, j: nat)
    requires i <= j <= |s|
    ensures s[..j] == s[..i] + s[i..j]
  {
  }

  lemma BatchTrail(d0: Disk, d: Disk, trail: seq<Disk>, trail': seq<Disk>, n: nat, cap: nat)
    requires n <= |trail| && trail <= trail' && Grows(d0, d)
    requires AllGrow(d0, trail, n) && WithinCap(trail, n, cap)
    requires AllGrow(d, trail', |trail|) && WithinCap(trail', |trail|, cap)
    ensures AllGrow(d0, trail', n) && WithinCap(trail', n, cap)
  {
    forall i | n <= i < |trail'| ensures Grows(d0, trail'[i]) && |trail'[i].manifests| <= cap {
      if i < |trail| {
        assert trail'[i] == trail[i];
      } else {
        GrowMore(d0, d, trail'[i]);
      }
    }
  }

  // ---------------------------------------------------------------------------------------------
  // pull
  // ---------------------------------------------------------------------------------------------

  datatype PullReport = PullReport(
    remoteHead: Option<Hash>,
    manifestsFetched: nat,
    objectsFetched: nat,
    objectsSkipped: nat)

  /** What a pull that went through has done, whoever the peer is.  `visited` are the manifests it
      fetched, `needed` the distinct chunks they name, `denied` those the peer did not offer. */
  ghost predicate Pulled(d0: Disk, d: Disk, report: PullReport, visited: set<Hash>, needed: set<Hash>, denied: set<Hash>) {
    && Grows(d0, d)
    && (forall h :: h in d.manifests <==> h in d0.manifests || h in visited)
    && (forall h :: h in visited ==> h !in d0.manifests && Loadable(d, h) && StoredId(d, Load(d, h).value.parent))
    && (forall ch :: ch in needed <==> NamedBy(d, visited, ch))
    && (forall ch :: ch in needed ==> ch in d.objects || ch in denied)
    && (forall ch :: ch in d.objects ==> ch in d0.objects || ch in needed)
    && report.remoteHead.Some? && report.remoteHead.value in d.manifests
    && report.manifestsFetched == |visited|
    && report.objectsFetched + report.objectsSkipped == |needed|
    && |d.objects| == |d0.objects| + report.objectsFetched
  }

  lemma LinkedVisited(d1: Disk, d: Disk, visited: set<Hash>)
    requires Linked(d1, visited, None) && d.manifests == d1.manifests
    ensures forall h :: h in visited ==> Loadable(d, h) && StoredId(d, Load(d, h).value.parent)
  {
    forall h | h in visited ensures Loadable(d, h) && StoredId(d, Load(d, h).value.parent) {
      assert Loadable(d1, h) && (Load(d1, h).value.parent == None || StoredId(d1, Load(d1, h).value.parent));
    }
  }

  lemma PullDone(d0: Disk, d1: Disk, d: Disk, report: PullReport, visited: set<Hash>, list: seq<Hash>, needed: set<Hash>, denied: set<Hash>)
    requires Fetched(d0, d1, visited) && Linked(d1, visited, None) && Collected(d1, visited, list)
    requires Grows(d0, d) && d.manifests == d1.manifests
    requires forall ch :: ch in d.objects ==> ch in d0.objects || ch in needed
    requires forall ch :: ch in needed <==> ch in list
    requires forall ch :: ch in list ==> ch in d.objects || ch in denied
    requires report.remoteHead.Some? && report.remoteHead.value in d1.manifests && report.manifestsFetched == |visited|
    requires report.objectsFetched + report.objectsSkipped == |needed|
    requires |d.objects| == |d0.objects| + report.objectsFetched
    ensures Pulled(d0, d, report, visited, needed, denied)
  {
    SameManifests(d1, d, visited);
    LinkedVisited(d1, d, visited);
  }

  /** Everything after the HEAD exchange. */
  method PullFrom(store: Store, remote: Remote, head: Hash)
    returns (r: Result<PullReport>, ghost visited: set<Hash>, ghost needed: set<Hash>, ghost denied: set<Hash>)
    requires store.Valid()
    modifies store
    ensures store.Valid() && old(store.trail) <= store.trail
    ensures Grows(old(store.Now()), store.Now()) && AllGrow(old(store.Now()), store.trail, |old(store.trail)|)
    ensures WithinCap(store.trail, |old(store.trail)|, |old(store.manifests)| + 100_000)
    ensures r.Ok? ==> r.value.remoteHead == Some(head)
    ensures r.Ok? ==> Pulled(old(store.Now()), store.Now(), r.value, visited, needed, denied)
    ensures KnownTo(remote, head) ==> forall h :: h in denied ==> Denied(remote, h)
    ensures r.Ok? && KnownTo(remote, head) ==> SameAsPeer(remote, store.Now(), visited)
    ensures r.Ok? && head in old(store.manifests) ==> visited == {}
    ensures Smooth(store, remote) && head in remote.d.manifests ==>
      (r.Ok? <==> RouteFits(remote.d, old(store.manifests.Keys), Some(head))) && (r.Err? ==> r.error == TooLarge)
  {
    visited, needed, denied := {}, {}, {};
    ghost var d0 := store.Now();
    var walked, fetched := Walk(store, remote, head);
    visited := fetched;
    if walked.Err? {
      r := Err(walked.error);
      return;
    }
    ghost var d1, trail1 := store.Now(), store.trail;
    var wanted := Distinct(walked.value.0);
    needed := set h | h in walked.value.0;
    if KnownTo(remote, head) {
      NeededIsKnown(remote, d1, visited, walked.value.0, wanted);
    }
    var got, refused := FetchAll(store, remote, wanted);
    denied := refused;
    TwoPhases(d0, d1, store.Now(), trail1, store.trail, |old(store.trail)|, |d0.manifests| + MAX_MANIFESTS_PER_PULL);
    if got.Err? {
      r := Err(got.error);
      return;
    }
    var report := PullReport(Some(head), walked.value.1, got.value.0, got.value.1);
    PullDone(d0, d1, store.Now(), report, visited, walked.value.0, needed, denied);
    r := Ok(report);
  }

  /** An understood peer knows the chunks that its manifests name. */
  lemma NeededIsKnown(remote: Remote, d: Disk, visited: set<Hash>, list: seq<Hash>, wanted: seq<Hash>)
    requires SameAsPeer(remote, d, visited) && Collected(d, visited, list)
    requires forall h :: h in wanted <==> h in list
    ensures AllKnown(remote, wanted)
  {
    if Understood(remote) {
      forall ch | ch in wanted ensures OnDisk(remote.d, ch) {
        assert NamedBy(d, visited, ch);
        var h, e :| h in visited && Loadable(d, h) && e in Load(d, h).value.files && ch in e.chunks;
        assert SameManifest(remote.d, d, h);
        assert MentionedBy(remote.d.manifests[h], ch);
      }
    }
  }

  lemma TwoPhases(d0: Disk, d1: Disk, d2: Disk, trail1: seq<Disk>, trail2: seq<Disk>, n: nat, cap: nat)
    requires n <= |trail1| && trail1 <= trail2 && Grows(d0, d1) && Grows(d1, d2)
    requires AllGrow(d0, trail1, n) && WithinCap(trail1, n, cap) && |d1.manifests| <= cap
    requires AllGrow(d1, trail2, |trail1|) && WithinCap(trail2, |trail1|, |d1.manifests|)
    ensures Grows(d0, d2) && AllGrow(d0, trail2, n) && WithinCap(trail2, n, cap)
  {
    GrowMore(d0, d1, d2);
    assert WithinCap(trail2, |trail1|, cap);
    BatchTrail(d0, d1, trail1, trail2, n, cap);
  }

  /** Replicate the peer's HEAD chain into the local store. */
  method Pull(store: Store, remote: Remote)
    returns (r: Result<PullReport>, ghost visited: set<Hash>, ghost needed: set<Hash>, ghost denied: set<Hash>)
    requires store.Valid()
    modifies store
    ensures store.Valid() && old(store.trail) <= store.trail
    ensures Grows(old(store.Now()), store.Now()) && AllGrow(old(store.Now()), store.trail, |old(store.trail)|)
    ensures WithinCap(store.trail, |old(store.trail)|, |old(store.manifests)| + 100_000)
    ensures r.Ok? && r.value.remoteHead.None? ==> store.Now() == old(store.Now())
    ensures r.Ok? && r.value.remoteHead.Some? ==> Pulled(old(store.Now()), store.Now(), r.value, visited, needed, denied)
    ensures forall h :: h in denied ==> Denied(remote, h)
    ensures r.Ok? && r.value.remoteHead.Some? ==> SameAsPeer(remote, store.Now(), visited)
    ensures r.Ok? && Understood(remote) ==> r.value.remoteHead == remote.d.head
    ensures r.Ok? && r.value.remoteHead.Some? && r.value.remoteHead.value in old(store.manifests) ==> visited == {}
    ensures Smooth(store, remote) ==>
      (r.Ok? <==> RouteFits(remote.d, old(store.manifests.Keys), remote.d.head)) && (r.Err? ==> r.error == TooLarge)
  {
    visited, needed, denied := {}, {}, {};
    if Understood(remote) && remote.d.head.Some? {
      assert OnDisk(remote.d, remote.d.head.value);
    }
    var reply :- Ask(remote, [OP_GET_HEAD]);
    if |reply| != 33 || reply[0] != 1 {
      if reply != [] && reply[0] == 0 {
        r := Ok(PullReport(None, 0, 0, 0));
      } else {
        r := Err(Protocol);
      }
      return;
    }
    var head := DecodeHash(reply[1..33]);
    if Understood(remote) {
      assert remote.d.head.Some? && OnDisk(remote.d, remote.d.head.value);
      assert reply == [1] + EncodeHash(remote.d.head.value);
      assert reply[1..33] == EncodeHash(remote.d.head.value);
    }
    r, visited, needed, denied := PullFrom(store, remote, head);
  }

  lemma SameManifests(d: Disk, d': Disk, visited: set<Hash>)
    requires d'.manifests == d.manifests
    ensures forall h :: Loadable(d', h) == Loadable(d, h) && Load(d', h) == Load(d, h)
    ensures forall ch :: NamedBy(d', visited, ch) <==> NamedBy(d, visited, ch)
  {
    forall h ensures Loadable(d', h) == Loadable(d, h) && Load(d', h) == Load(d, h) {
    }
    forall ch ensures NamedBy(d', visited, ch) <==> NamedBy(d, visited, ch) {
      if NamedBy(d, visited, ch) {
        var h, e :| h in visited && Loadable(d, h) && e in Load(d, h).value.files && ch in e.chunks;
        assert Loadable(d', h);
      }
      if NamedBy(d', visited, ch) {
        var h, e :| h in visited && Loadable(d', h) && e in Load(d', h).value.files && ch in e.chunks;
        assert Loadable(d, h);
      }
    }
  }
}
