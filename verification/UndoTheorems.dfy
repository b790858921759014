/** What surgical undo guarantees, derived from its path-by-path reading. */
module UndoTheorems {
  import opened Core
  import opened Ordering
  import opened Undo

  /** `files` is a file list that surgical undo may return for `chain`. */
  ghost predicate IsUndo(chain: seq<Manifest>, actor: string, files: seq<FileEntry>)
    requires chain != []
  {
    forall p :: UndoneTo(chain, actor, p, LastAt(files, p))
  }

  ghost predicate SameContents(a: seq<FileEntry>, b: seq<FileEntry>) {
    forall p :: ContentAt(a, p) == ContentAt(b, p)
  }

  lemma SameAccumulators(chain: seq<Manifest>, actor: string, touched: set<string>, effective: map<string, FileEntry>,
                         touched': set<string>, effective': map<string, FileEntry>)
    requires Accumulated(chain, actor, touched, effective) && Accumulated(chain, actor, touched', effective')
    ensures touched == touched' && effective == effective'
  {
    forall p ensures Lookup(effective, p) == Lookup(effective', p) {
      FallbackUnique(chain, actor, |chain|, 0, p, Lookup(effective, p), Lookup(effective', p));
    }
    assert forall p :: p in effective <==> Lookup(effective, p).Some?;
    assert forall p :: p in effective' <==> Lookup(effective', p).Some?;
    assert forall p :: p in effective && p in effective' ==> Lookup(effective, p) == Some(effective[p]) && Lookup(effective', p) == Some(effective'[p]);
  }

  /** The order in which hash maps are visited cannot show: one history has one undone list, also when
      HEAD names paths twice. */
  lemma UndoDeterministic(chain: seq<Manifest>, actor: string, files: seq<FileEntry>, files': seq<FileEntry>)
    requires chain != [] && UndoneList(chain, actor, files) && UndoneList(chain, actor, files')
    ensures files == files'
  {
    var head := HeadFiles(chain);
    var touched, effective, missing :|
      Accumulated(chain, actor, touched, effective) && Rebuilt(head, touched, effective, missing, files);
    var touched', effective', missing' :|
      Accumulated(chain, actor, touched', effective') && Rebuilt(head, touched', effective', missing', files');
    SameAccumulators(chain, actor, touched, effective, touched', effective');
    AccumulatedIsKeyed(chain, actor, touched, effective);
    forall p ensures EntriesAt(files, p) == EntriesAt(files', p) {
      SameEntries(head, touched, effective, missing, missing', p);
    }
    SortedUnique(files, files');
  }

  lemma SameEntries(head: seq<FileEntry>, touched: set<string>, effective: map<string, FileEntry>,
                    missing: seq<FileEntry>, missing': seq<FileEntry>, p: string)
    requires KeyedByPath(effective)
    requires Missing(head, touched, effective, missing) && Missing(head, touched, effective, missing')
    ensures EntriesAt(SortByPath(Kept(head, touched, effective) + missing), p)
         == EntriesAt(SortByPath(Kept(head, touched, effective) + missing'), p)
  {
    var kept := Kept(head, touched, effective);
    SortEntriesAt(kept + missing, p);
    SortEntriesAt(kept + missing', p);
    EntriesAtConcat(kept, missing, p);
    EntriesAtConcat(kept, missing', p);
    MissingLast(head, touched, effective, missing, p);
    MissingLast(head, touched, effective, missing', p);
    SingleAt(missing, p);
    SingleAt(missing', p);
  }

  lemma ExtendFacts(chain: seq<Manifest>, actor: string, next: Manifest, p: string)
    requires !ByActor(next, actor)
    ensures Touched(chain + [next], actor, p) <==> Touched(chain, actor, p)
    ensures forall i: nat, k: nat :: i < |chain| ==> (Foreign(chain + [next], actor, p, i, k) <==> Foreign(chain, actor, p, i, k))
  {
    var longer := chain + [next];
    forall i: nat | i < |chain| ensures TouchedAt(longer, actor, i, p) <==> TouchedAt(chain, actor, i, p) {
      if i > 0 { assert longer[i - 1] == chain[i - 1]; }
    }
    if Touched(longer, actor, p) {
      var i: nat :| i < |longer| && TouchedAt(longer, actor, i, p);
      assert i < |chain|;
      assert TouchedAt(chain, actor, i, p);
    }
    if Touched(chain, actor, p) {
      var i: nat :| i < |chain| && TouchedAt(chain, actor, i, p);
      assert TouchedAt(longer, actor, i, p);
    }
    assert forall j: nat :: j < |chain| ==> longer[j] == chain[j];
    forall i: nat, h | i < |chain| ensures HeldBefore(longer, actor, i, p, h) <==> HeldBefore(chain, actor, i, p, h) {
      assert forall j: nat :: j < i && ByActor(longer[j], actor) ==> ByActor(chain[j], actor);
      assert forall j: nat :: j < i && ByActor(chain[j], actor) ==> ByActor(longer[j], actor);
    }
  }

  /** The snapshot `next` names `p` last with bytes the actor had there, and before that with others. */
  ghost predicate Masked(chain: seq<Manifest>, actor: string, next: Manifest, p: string) {
    && LastAt(next.files, p).Some? && HeldBefore(chain, actor, |chain|, p, LastAt(next.files, p).value.content)
    && exists e :: e in next.files && e.path == p && !HeldBefore(chain, actor, |chain|, p, e.content)
  }

  /** Undoing an actor twice is undoing it once: whatever non-actor snapshot records the undone contents,
      the second run touches the same paths, and it yields the same contents exactly when no touched
      path is masked.  A snapshot that names each path once masks none. */
  lemma UndoIdempotent(chain: seq<Manifest>, actor: string, undone: seq<FileEntry>, next: Manifest, again: seq<FileEntry>)
    requires chain != [] && !ByActor(next, actor)
    requires IsUndo(chain, actor, undone) && SameContents(next.files, undone)
    requires IsUndo(chain + [next], actor, again)
    ensures forall p :: Touched(chain + [next], actor, p) <==> Touched(chain, actor, p)
    ensures SameContents(again, undone) <==> forall p :: Touched(chain, actor, p) ==> !Masked(chain, actor, next, p)
    ensures DistinctPaths(next.files) ==> SameContents(again, undone)
  {
    forall p
      ensures Touched(chain + [next], actor, p) <==> Touched(chain, actor, p)
      ensures ContentAt(again, p) == ContentAt(undone, p) <==> !(Touched(chain, actor, p) && Masked(chain, actor, next, p))
    {
      ExtendFacts(chain, actor, next, p);
      assert UndoneTo(chain, actor, p, LastAt(undone, p));
      assert UndoneTo(chain + [next], actor, p, LastAt(again, p));
      assert ContentAt(next.files, p) == ContentAt(undone, p);
      if Touched(chain, actor, p) {
        IdempotentAt(chain, actor, undone, next, again, p);
      } else {
        assert (chain + [next])[|chain|] == next;
      }
    }
    if DistinctPaths(next.files) {
      forall p ensures !Masked(chain, actor, next, p) {
        assert forall e :: e in next.files && e.path == p ==> LastAt(next.files, p) == Some(e) by {
          forall e | e in next.files && e.path == p { LastAtDistinct(next.files, e); }
        }
      }
    }
  }

  lemma IdempotentAt(chain: seq<Manifest>, actor: string, undone: seq<FileEntry>, next: Manifest, again: seq<FileEntry>, p: string)
    requires chain != [] && !ByActor(next, actor)
    requires FallsBackTo(chain, actor, |chain|, 0, p, LastAt(undone, p))
    requires ContentAt(next.files, p) == ContentAt(undone, p)
    requires FallsBackTo(chain + [next], actor, |chain| + 1, 0, p, LastAt(again, p))
    ensures ContentAt(again, p) == ContentAt(undone, p) <==> !Masked(chain, actor, next, p)
  {
    var longer, n := chain + [next], |chain|;
    var older, r := LastAt(undone, p), LastAt(again, p);
    FallbackExtend(chain, actor, next, p, older);
    ForeignNext(chain, actor, next, p);
    if LastAt(next.files, p).None? {
      NoneNew(longer, actor, n, p, r);
      FallbackUnique(longer, actor, n, 0, p, r, older);
    } else {
      Decided(longer, actor, n, p, LastAt(next.files, p).value, r, older);
    }
  }

  lemma HeldExtend(chain: seq<Manifest>, actor: string, next: Manifest, p: string, h: Hash)
    ensures HeldBefore(chain + [next], actor, |chain|, p, h) <==> HeldBefore(chain, actor, |chain|, p, h)
  {
    var longer := chain + [next];
    assert forall j: nat :: j < |chain| && ByActor(longer[j], actor) ==> ByActor(chain[j], actor);
    assert forall j: nat :: j < |chain| && ByActor(chain[j], actor) ==> ByActor(longer[j], actor);
  }

  /** The foreign entries of the appended snapshot. */
  lemma ForeignNext(chain: seq<Manifest>, actor: string, next: Manifest, p: string)
    requires !ByActor(next, actor)
    ensures (exists k: nat :: Foreign(chain + [next], actor, p, |chain|, k)) <==>
            exists e :: e in next.files && e.path == p && !HeldBefore(chain, actor, |chain|, p, e.content)
    ensures forall h :: HeldBefore(chain + [next], actor, |chain|, p, h) <==> HeldBefore(chain, actor, |chain|, p, h)
  {
    var longer, n := chain + [next], |chain|;
    forall h ensures HeldBefore(longer, actor, n, p, h) <==> HeldBefore(chain, actor, n, p, h) {
      HeldExtend(chain, actor, next, p, h);
    }
    assert longer[n] == next;
    if e :| e in next.files && e.path == p && !HeldBefore(chain, actor, n, p, e.content) {
      var k: nat :| k < |next.files| && next.files[k] == e;
      assert Foreign(longer, actor, p, n, k);
    }
  }

  lemma FallbackExtend(chain: seq<Manifest>, actor: string, next: Manifest, p: string, r: Option<FileEntry>)
    requires !ByActor(next, actor) && FallsBackTo(chain, actor, |chain|, 0, p, r)
    ensures FallsBackTo(chain + [next], actor, |chain|, 0, p, r)
  {
    var longer, n := chain + [next], |chain|;
    ExtendFacts(chain, actor, next, p);
    assert forall i: nat, k: nat :: Foreign(longer, actor, p, i, k) && Earlier(i, k, n, 0) <==>
                                    Foreign(chain, actor, p, i, k) && Earlier(i, k, n, 0);
    assert forall i: nat, k: nat :: Foreign(chain, actor, p, i, k) ==> longer[i] == chain[i];
  }

  /** Some entry of snapshot `n` is foreign: its last entry decides, unless the actor had those bytes, in
      which case other bytes do. */
  lemma NewestOfSnapshot(chain: seq<Manifest>, actor: string, n: nat, p: string, last: nat, r: Option<FileEntry>)
    requires n < |chain| && (exists k: nat :: Foreign(chain, actor, p, n, k))
    requires last < |chain[n].files| && chain[n].files[last].path == p
    requires forall l :: last < l < |chain[n].files| ==> chain[n].files[l].path != p
    requires FallsBackTo(chain, actor, n + 1, 0, p, r)
    ensures r.Some?
    ensures r.value.content == chain[n].files[last].content <==> !HeldBefore(chain, actor, n, p, chain[n].files[last].content)
  {
    var k: nat :| Foreign(chain, actor, p, n, k);
    assert Earlier(n, k, n + 1, 0);
    var i': nat, k': nat :| Foreign(chain, actor, p, i', k') && Earlier(i', k', n + 1, 0)
      && chain[i'].files[k'] == r.value
      && forall i: nat, l: nat :: Foreign(chain, actor, p, i, l) && Earlier(i, l, n + 1, 0) ==> !Earlier(i', k', i, l);
    assert i' == n;
    if !HeldBefore(chain, actor, n, p, chain[n].files[last].content) {
      assert Foreign(chain, actor, p, n, last) && Earlier(n, last, n + 1, 0);
    }
  }

  /** Snapshot `n` adds nothing foreign at `p`: one position earlier the fallback is the same. */
  lemma NoneNew(chain: seq<Manifest>, actor: string, n: nat, p: string, r: Option<FileEntry>)
    requires n < |chain| && forall k: nat :: !Foreign(chain, actor, p, n, k)
    requires FallsBackTo(chain, actor, n + 1, 0, p, r)
    ensures FallsBackTo(chain, actor, n, 0, p, r)
  {
    assert forall i: nat, k: nat :: Foreign(chain, actor, p, i, k) ==> (Earlier(i, k, n + 1, 0) <==> Earlier(i, k, n, 0));
  }

  /** When the state `e` of `p` in somebody else's snapshot `n` is what the path falls back to. */
  lemma Decided(chain: seq<Manifest>, actor: string, n: nat, p: string, e: FileEntry, r: Option<FileEntry>, older: Option<FileEntry>)
    requires n < |chain| && !ByActor(chain[n], actor) && LastAt(chain[n].files, p) == Some(e)
    requires FallsBackTo(chain, actor, n + 1, 0, p, r) && FallsBackTo(chain, actor, n, 0, p, older)
    ensures ContentOf(r) == Some(e.content) <==>
              || !HeldBefore(chain, actor, n, p, e.content)
              || (ContentOf(older) == Some(e.content) && forall k: nat :: !Foreign(chain, actor, p, n, k))
  {
    var last := LastIndex(chain[n].files, p);
    if exists k: nat :: Foreign(chain, actor, p, n, k) {
      NewestOfSnapshot(chain, actor, n, p, last, r);
    } else {
      assert !Foreign(chain, actor, p, n, last);
      NoneNew(chain, actor, n, p, r);
      FallbackUnique(chain, actor, n, 0, p, r, older);
    }
  }

  // ---------------------------------------------------------------------------------------------
  // Does later work of others survive?
  // ---------------------------------------------------------------------------------------------

  /** Snapshot `i` is the newest one of somebody else's that holds `p`, and `e` is what it holds there. */
  ghost predicate NewestOfOthers(chain: seq<Manifest>, actor: string, i: nat, p: string, e: FileEntry) {
    && i < |chain| && !ByActor(chain[i], actor) && LastAt(chain[i].files, p) == Some(e)
    && forall j :: i < j < |chain| ==> ByActor(chain[j], actor) || LastAt(chain[j].files, p).None?
  }

  lemma SettledBy(chain: seq<Manifest>, actor: string, i: nat, p: string, e: FileEntry, r: Option<FileEntry>)
    requires NewestOfOthers(chain, actor, i, p, e)
    requires FallsBackTo(chain, actor, |chain|, 0, p, r)
    ensures FallsBackTo(chain, actor, i + 1, 0, p, r)
  {
    forall j: nat, k: nat | Foreign(chain, actor, p, j, k) ensures j <= i {
      assert chain[j].files[k] in chain[j].files;
    }
    assert forall j: nat, k: nat :: Foreign(chain, actor, p, j, k) ==> Earlier(j, k, i + 1, 0) && Earlier(j, k, |chain|, 0);
  }

  /** The newest work of others on a touched path survives the undo, exactly when the actor did not have
      those bytes there in an earlier snapshot, or when they are what the path falls back to anyway. */
  lemma OthersWorkSurvives(chain: seq<Manifest>, actor: string, i: nat, p: string, e: FileEntry,
                           older: Option<FileEntry>, undone: seq<FileEntry>)
    requires chain != [] && IsUndo(chain, actor, undone) && Touched(chain, actor, p)
    requires NewestOfOthers(chain, actor, i, p, e) && FallsBackTo(chain, actor, i, 0, p, older)
    ensures ContentAt(undone, p) == Some(e.content) <==>
              || !HeldBefore(chain, actor, i, p, e.content)
              || (ContentOf(older) == Some(e.content) && forall k: nat :: !Foreign(chain, actor, p, i, k))
  {
    var r := LastAt(undone, p);
    assert UndoneTo(chain, actor, p, r);
    SettledBy(chain, actor, i, p, e, r);
    Decided(chain, actor, i, p, e, r, older);
  }

  /** Where a path's contents stand after the others' part of a chain `base + tail`. */
  function Baseline(chain: seq<Manifest>, n: nat, p: string): Option<Hash>
    requires n <= |chain|
  {
    ContentBefore(chain, n, p)
  }

  ghost predicate SeenBefore(chain: seq<Manifest>, n: nat, p: string)
    requires n <= |chain|
  {
    exists i: nat :: i < n && ContentAt(chain[i].files, p).Some?
  }

  /** The chain is other people's snapshots followed by the actor's. */
  ghost predicate ActorTail(chain: seq<Manifest>, actor: string, n: nat) {
    n <= |chain| && forall i: nat :: i < |chain| ==> (ByActor(chain[i], actor) <==> n <= i)
  }

  lemma {:induction false} UntouchedTail(chain: seq<Manifest>, actor: string, n: nat, i: nat, p: string)
    requires ActorTail(chain, actor, n) && n <= i <= |chain|
    requires !Touched(chain, actor, p)
    ensures ContentBefore(chain, i, p) == Baseline(chain, n, p)
  {
    if n < i {
      UntouchedTail(chain, actor, n, i - 1, p);
      assert !TouchedAt(chain, actor, i - 1, p);
    }
  }

  /** Entry `k` of snapshot `i` is the newest one at `p` before snapshot `n`. */
  ghost predicate NewestAt(chain: seq<Manifest>, n: nat, p: string, i: nat, k: nat)
    requires n <= |chain|
  {
    && i < n && k < |chain[i].files| && LastAt(chain[i].files, p) == Some(chain[i].files[k])
    && forall i': nat, k': nat :: i' < n && k' < |chain[i'].files| && chain[i'].files[k'].path == p ==> !Earlier(i, k, i', k')
  }

  lemma {:induction false} NewestBefore(chain: seq<Manifest>, n: nat, p: string) returns (i: nat, k: nat)
    requires n <= |chain| && SeenBefore(chain, n, p)
    ensures NewestAt(chain, n, p, i, k)
    ensures ContentAt(chain[n - 1].files, p).Some? ==> i == n - 1
  {
    if ContentAt(chain[n - 1].files, p).Some? {
      i := n - 1;
      k := LastIndex(chain[i].files, p);
    } else {
      assert SeenBefore(chain, n - 1, p);
      i, k := NewestBefore(chain, n - 1, p);
    }
  }

  lemma {:induction false} LastIndex(files: seq<FileEntry>, p: string) returns (k: nat)
    requires LastAt(files, p).Some?
    ensures k < |files| && LastAt(files, p) == Some(files[k])
    ensures forall l :: k < l < |files| ==> files[l].path != p
  {
    if files[|files| - 1].path == p {
      k := |files| - 1;
    } else {
      k := LastIndex(files[..|files| - 1], p);
    }
  }

  lemma TailSeen(chain: seq<Manifest>, actor: string, n: nat, p: string, r: Option<FileEntry>)
    requires ActorTail(chain, actor, n) && SeenBefore(chain, n, p)
    requires FallsBackTo(chain, actor, |chain|, 0, p, r)
    ensures ContentOf(r) == Baseline(chain, n, p) <==> Baseline(chain, n, p).Some?
  {
    var i, k := NewestBefore(chain, n, p);
    NewestIsFallback(chain, actor, n, p, i, k, r);
    NewestAgainstBaseline(chain, n, p, i, k);
  }

  lemma NewestAgainstBaseline(chain: seq<Manifest>, n: nat, p: string, i: nat, k: nat)
    requires n <= |chain| && i < n && k < |chain[i].files| && LastAt(chain[i].files, p) == Some(chain[i].files[k])
    requires ContentAt(chain[n - 1].files, p).Some? ==> i == n - 1
    ensures Some(chain[i].files[k].content) == Baseline(chain, n, p) <==> Baseline(chain, n, p).Some?
  {
  }

  lemma NewestIsFallback(chain: seq<Manifest>, actor: string, n: nat, p: string, i: nat, k: nat, r: Option<FileEntry>)
    requires ActorTail(chain, actor, n) && NewestAt(chain, n, p, i, k)
    requires FallsBackTo(chain, actor, |chain|, 0, p, r)
    ensures r == Some(chain[i].files[k])
  {
    NewestIsForeign(chain, actor, n, p, i, k);
    FallbackUnique(chain, actor, |chain|, 0, p, r, Some(chain[i].files[k]));
  }

  lemma NewestIsForeign(chain: seq<Manifest>, actor: string, n: nat, p: string, i: nat, k: nat)
    requires ActorTail(chain, actor, n) && NewestAt(chain, n, p, i, k)
    ensures NewestForeign(chain, actor, |chain|, 0, p, chain[i].files[k])
  {
    assert Foreign(chain, actor, p, i, k) && Earlier(i, k, |chain|, 0);
    assert forall i': nat, k': nat :: Foreign(chain, actor, p, i', k') ==> i' < n;
  }

  lemma TailUnseen(chain: seq<Manifest>, actor: string, n: nat, p: string, r: Option<FileEntry>)
    requires ActorTail(chain, actor, n) && !SeenBefore(chain, n, p)
    requires FallsBackTo(chain, actor, |chain|, 0, p, r)
    ensures r.None? && Baseline(chain, n, p).None?
  {
    forall i: nat, k: nat ensures !Foreign(chain, actor, p, i, k) {
      assert i < n ==> ContentAt(chain[i].files, p).None?;
    }
    assert n > 0 ==> ContentAt(chain[n - 1].files, p) == None;
  }

  lemma TailAt(chain: seq<Manifest>, actor: string, n: nat, p: string, r: Option<FileEntry>)
    requires chain != [] && ActorTail(chain, actor, n) && UndoneTo(chain, actor, p, r)
    ensures ContentOf(r) == Baseline(chain, n, p) <==>
              !(Touched(chain, actor, p) && Baseline(chain, n, p) == None && SeenBefore(chain, n, p))
  {
    if !Touched(chain, actor, p) {
      UntouchedTail(chain, actor, n, |chain|, p);
    } else if SeenBefore(chain, n, p) {
      TailSeen(chain, actor, n, p, r);
    } else {
      TailUnseen(chain, actor, n, p, r);
    }
  }

  /** When an actor works last, undoing it gives back the contents of the last snapshot before it,
      exactly unless it touched a path that the others had dropped: such a path comes back. */
  lemma UndoOfTailRestores(chain: seq<Manifest>, actor: string, n: nat, undone: seq<FileEntry>)
    requires chain != [] && ActorTail(chain, actor, n) && IsUndo(chain, actor, undone)
    ensures (forall p :: ContentAt(undone, p) == Baseline(chain, n, p)) <==>
            (forall p :: Touched(chain, actor, p) && SeenBefore(chain, n, p) ==> Baseline(chain, n, p).Some?)
  {
    forall p
      ensures ContentAt(undone, p) == Baseline(chain, n, p) <==>
                (Touched(chain, actor, p) && SeenBefore(chain, n, p) ==> Baseline(chain, n, p).Some?)
    {
      assert UndoneTo(chain, actor, p, LastAt(undone, p));
      TailAt(chain, actor, n, p, LastAt(undone, p));
    }
  }

  /** A path missing from HEAD is brought back exactly when the actor touched it and somebody else's
      state of it is on record, no matter who deleted it. */
  lemma ComesBackIff(chain: seq<Manifest>, actor: string, undone: seq<FileEntry>, p: string)
    requires chain != [] && IsUndo(chain, actor, undone)
    requires LastAt(chain[|chain| - 1].files, p) == None
    ensures LastAt(undone, p).Some? <==>
              Touched(chain, actor, p) && exists i: nat, k: nat :: Foreign(chain, actor, p, i, k)
  {
    assert UndoneTo(chain, actor, p, LastAt(undone, p));
    if i: nat, k: nat :| Foreign(chain, actor, p, i, k) {
      assert Earlier(i, k, |chain|, 0);
    }
  }

  function Snapshot(actor: Option<string>, files: seq<FileEntry>): Manifest {
    Manifest(3, None, 0, "", files, [], actor)
  }

  /** Somebody else's deletion is not respected: the path returns although the newest snapshot, which
      is not the actor's, dropped it. */
  lemma DeletionByOthersIsUndone(a: Hash, b: Hash, undone: seq<FileEntry>)
    requires a != b
    requires var f := (h: Hash) => FileEntry("f", 0, 0, 0, 0, h, []);
             IsUndo([Snapshot(None, [f(a)]), Snapshot(Some("alice"), [f(b)]), Snapshot(Some("bob"), [])], "alice", undone)
    ensures ContentAt(undone, "f") == Some(a)
  {
    var fa, fb := FileEntry("f", 0, 0, 0, 0, a, []), FileEntry("f", 0, 0, 0, 0, b, []);
    var chain := [Snapshot(None, [fa]), Snapshot(Some("alice"), [fb]), Snapshot(Some("bob"), [])];
    assert LastAt([fa], "f") == Some(fa) && LastAt([fb], "f") == Some(fb);
    assert TouchedAt(chain, "alice", 1, "f");
    assert Foreign(chain, "alice", "f", 0, 0) && Earlier(0, 0, 3, 0);
    assert UndoneTo(chain, "alice", "f", LastAt(undone, "f"));
    assert forall i: nat, k: nat :: Foreign(chain, "alice", "f", i, k) ==> i == 0 && k == 0;
    assert NewestForeign(chain, "alice", 3, 0, "f", fa);
    FallbackUnique(chain, "alice", 3, 0, "f", LastAt(undone, "f"), Some(fa));
  }

  /** HEAD names `p` twice, the actor once dropped it, and somebody else has it on record. */
  function DoubledHistory(p: string, h: Hash, k: Hash): seq<Manifest> {
    [Snapshot(None, [Plain(p, h)]), Snapshot(Some("alice"), []), Snapshot(None, [Plain(p, h), Plain(p, k)])]
  }

  /** Then the undone list names `p` twice as well. */
  lemma DoubledStays(p: string, h: Hash, k: Hash, files: seq<FileEntry>)
    requires UndoneList(DoubledHistory(p, h, k), "alice", files)
    ensures Touched(DoubledHistory(p, h, k), "alice", p)
    ensures StaysDoubled(DoubledHistory(p, h, k), "alice", p) && !StrictlySorted(files)
  {
    var chain := DoubledHistory(p, h, k);
    UndoneListMeans(chain, "alice", files);
    DoubledTouched(p, h, k);
    DoubledForeign(p, h, k);
    DoubledNames(p, h, k);
    assert StaysDoubled(chain, "alice", p);
  }

  lemma DoubledTouched(p: string, h: Hash, k: Hash)
    ensures Touched(DoubledHistory(p, h, k), "alice", p)
  {
    assert TouchedAt(DoubledHistory(p, h, k), "alice", 1, p);
  }

  lemma DoubledForeign(p: string, h: Hash, k: Hash)
    ensures !NoForeign(DoubledHistory(p, h, k), "alice", 3, 0, p)
  {
    assert Foreign(DoubledHistory(p, h, k), "alice", p, 0, 0) && Earlier(0, 0, 3, 0);
  }

  lemma DoubledNames(p: string, h: Hash, k: Hash)
    ensures NamedTwice([Plain(p, h), Plain(p, k)], p)
  {
    var head := [Plain(p, h), Plain(p, k)];
    assert head[..1] == [Plain(p, h)] && [Plain(p, h)][..0] == [];
    assert EntriesAt([Plain(p, h)], p) == [Plain(p, h)];
  }

  /** Bob's last write is lost although alice never wrote it: she only had those bytes in a snapshot. */
  lemma LaterWorkIsLost(x: Hash, y: Hash, z: Hash, undone: seq<FileEntry>)
    requires x != y && y != z && x != z
    requires IsUndo(LostHistory(x, y, z), "alice", undone)
    ensures NewestOfOthers(LostHistory(x, y, z), "alice", 4, "f", Plain("f", x))
    ensures ContentAt(undone, "f") == Some(y)
  {
    var chain := LostHistory(x, y, z);
    LostContents(x, y, z);
    LostForeign(x, y, z);
    assert TouchedAt(chain, "alice", 3, "f");
    assert Earlier(2, 0, 5, 0);
    assert NewestForeign(chain, "alice", 5, 0, "f", Plain("f", y));
    assert UndoneTo(chain, "alice", "f", LastAt(undone, "f"));
    FallbackUnique(chain, "alice", 5, 0, "f", LastAt(undone, "f"), Some(Plain("f", y)));
  }

  lemma LostContents(x: Hash, y: Hash, z: Hash)
    ensures var chain := LostHistory(x, y, z);
      && LastAt(chain[1].files, "f") == Some(Plain("f", x)) && LastAt(chain[2].files, "f") == Some(Plain("f", y))
      && LastAt(chain[3].files, "f") == Some(Plain("f", z)) && LastAt(chain[4].files, "f") == Some(Plain("f", x))
  {
    LastOfTwo(Plain("f", x), Plain("g", y));
    LastOfTwo(Plain("f", y), Plain("g", y));
    LastOfTwo(Plain("f", z), Plain("g", y));
  }

  lemma LostForeign(x: Hash, y: Hash, z: Hash)
    requires x != y && y != z && x != z
    ensures var chain := LostHistory(x, y, z);
      && Foreign(chain, "alice", "f", 2, 0)
      && forall i: nat, k: nat :: Foreign(chain, "alice", "f", i, k) ==> i == 0 || (i == 2 && k == 0)
  {
    var chain := LostHistory(x, y, z);
    LostContents(x, y, z);
    assert HeldBefore(chain, "alice", 4, "f", x) by { assert ByActor(chain[1], "alice"); }
    assert !HeldBefore(chain, "alice", 2, "f", y);
  }

  function Plain(p: string, h: Hash): FileEntry { FileEntry(p, 0, 0, 0, 0, h, []) }

  function LostHistory(x: Hash, y: Hash, z: Hash): seq<Manifest> {
    [ Snapshot(None, [Plain("f", x)]),
      Snapshot(Some("alice"), [Plain("f", x), Plain("g", y)]),
      Snapshot(Some("bob"), [Plain("f", y), Plain("g", y)]),
      Snapshot(Some("alice"), [Plain("f", z), Plain("g", y)]),
      Snapshot(Some("bob"), [Plain("f", x), Plain("g", y)]) ]
  }

  lemma LastOfTwo(a: FileEntry, b: FileEntry)
    requires a.path != b.path
    ensures LastAt([a, b], a.path) == Some(a) && LastAt([a, b], b.path) == Some(b) && LastAt([a], a.path) == Some(a)
  {
    assert [a, b][..1] == [a];
  }
}
