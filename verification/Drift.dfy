/** Drift detection and manifest diffs (`drift.rs`, `diff_manifests`).  The source's sorted vectors of
    distinct paths are sets here. */
module Drift {
  import opened Core
  import opened Paths
  import opened Storage
  import opened Worktrees
  import opened Snapshots

  datatype Report = Report(added: set<string>, modified: set<string>, deleted: set<string>, touched: set<string>)

  predicate Dirty(r: Report) {
    r.added != {} || r.modified != {} || r.deleted != {}
  }

  /** The content hash a walk over `t` finds at path `p`, ignoring what drift detection ignores. */
  ghost function Live(t: Tree, p: string): Option<Hash>
    requires ProperTree(t)
  {
    if exists c :: c in t && Tracked(t, c) && Join(c) == p then
      var c :| c in t && Tracked(t, c) && Join(c) == p;
      Some(HashBytes(t[c]))
    else None
  }

  lemma LiveAt(t: Tree, c: Comps)
    requires ProperTree(t) && c in t
    ensures Live(t, Join(c)) == if Tracked(t, c) then Some(HashBytes(t[c])) else None
  {
    forall d | d in t && Join(d) == Join(c) ensures d == c {
      JoinInjective(c, d);
    }
  }

  /** The three lists of a diff, from the old and the new content of each path. */
  predicate IsAdded(now: Option<Hash>, was: Option<Hash>) { now.Some? && was.None? }

  predicate IsModified(now: Option<Hash>, was: Option<Hash>) { now.Some? && was.Some? && now != was }

  predicate IsDeleted(now: Option<Hash>, was: Option<Hash>) { now.None? && was.Some? }

  /** Size and modification time of the file at `c` are the recorded ones. */
  ghost predicate LooksUntouched(t: Tree, stamps: Stamps, e: FileEntry, c: Comps)
    requires c in t
  {
    |t[c]| == e.size && Stamp(stamps, c) == (e.mtimeSecs, e.mtimeNanos)
  }

  /** The walk finds a file at `p` whose metadata is what `files` records. */
  ghost predicate SeemsUntouched(t: Tree, stamps: Stamps, files: seq<FileEntry>, p: string)
    requires ProperTree(t)
  {
    && LastAt(files, p).Some?
    && exists c :: c in t && Tracked(t, c) && Join(c) == p && LooksUntouched(t, stamps, LastAt(files, p).value, c)
  }

  lemma SeemsAt(t: Tree, stamps: Stamps, files: seq<FileEntry>, c: Comps)
    requires ProperTree(t) && c in t && Tracked(t, c)
    ensures SeemsUntouched(t, stamps, files, Join(c)) <==>
              LastAt(files, Join(c)).Some? && LooksUntouched(t, stamps, LastAt(files, Join(c)).value, c)
  {
    forall d | d in t && Join(d) == Join(c) ensures d == c {
      JoinInjective(c, d);
    }
  }

  /** The file at `p` is hashed and compared. */
  ghost predicate Rehashed(t: Tree, stamps: Stamps, files: seq<FileEntry>, full: bool, p: string)
    requires ProperTree(t)
  {
    full || !SeemsUntouched(t, stamps, files, p)
  }

  ghost predicate FoundModified(t: Tree, stamps: Stamps, files: seq<FileEntry>, full: bool, p: string)
    requires ProperTree(t)
  {
    IsModified(Live(t, p), ContentAt(files, p)) && Rehashed(t, stamps, files, full, p)
  }

  ghost predicate FoundSame(t: Tree, stamps: Stamps, files: seq<FileEntry>, full: bool, p: string)
    requires ProperTree(t)
  {
    Live(t, p).Some? && Live(t, p) == ContentAt(files, p) && Rehashed(t, stamps, files, full, p)
  }

  /** What comparing the file at `c` tells about its path. */
  lemma FoundAt(t: Tree, stamps: Stamps, files: seq<FileEntry>, full: bool, c: Comps)
    requires ProperTree(t) && c in t && Tracked(t, c)
    ensures var e := LastAt(files, Join(c));
      var compared := e.Some? && (full || !LooksUntouched(t, stamps, e.value, c));
      && (IsAdded(Live(t, Join(c)), ContentAt(files, Join(c))) <==> e.None?)
      && (FoundModified(t, stamps, files, full, Join(c)) <==> compared && HashBytes(t[c]) != e.value.content)
      && (FoundSame(t, stamps, files, full, Join(c)) <==> compared && HashBytes(t[c]) == e.value.content)
  {
    LiveAt(t, c);
    SeemsAt(t, stamps, files, c);
  }

  /** What drift detection owes its caller. */
  ghost predicate Reports(r: Report, t: Tree, stamps: Stamps, files: seq<FileEntry>, full: bool)
    requires ProperTree(t)
  {
    && (forall p :: p in r.added <==> IsAdded(Live(t, p), ContentAt(files, p)))
    && (forall p :: p in r.deleted <==> IsDeleted(Live(t, p), ContentAt(files, p)))
    && (forall p :: p in r.modified <==> FoundModified(t, stamps, files, full, p))
    && (forall p :: p in r.touched <==> FoundSame(t, stamps, files, full, p))
  }

  /** The report on the paths `seen`; deletions are listed at the end. */
  ghost predicate ReportsSoFar(r: Report, seen: set<string>, t: Tree, stamps: Stamps, files: seq<FileEntry>, full: bool)
    requires ProperTree(t)
  {
    && (forall p :: p in r.added <==> p in seen && IsAdded(Live(t, p), ContentAt(files, p)))
    && (forall p :: p in r.modified <==> p in seen && FoundModified(t, stamps, files, full, p))
    && (forall p :: p in r.touched <==> p in seen && FoundSame(t, stamps, files, full, p))
  }

  /** Compare one tracked file. */
  method CompareFile(t: Tree, stamps: Stamps, m: Manifest, full: bool, c: Comps, ghost seen: set<string>, r0: Report)
    returns (r: Report)
    requires ProperTree(t) && c in t && Tracked(t, c) && ReportsSoFar(r0, seen, t, stamps, m.files, full)
    ensures ReportsSoFar(r, seen + {Join(c)}, t, stamps, m.files, full)
  {
    FoundAt(t, stamps, m.files, full, c);
    r := r0;
    var rel := Join(c);
    var expected := LastAt(m.files, rel);
    var stamp := if c in stamps then stamps[c] else (0, 0);
    if expected.None? {
      r := r.(added := r.added + {rel});
    } else if full || |t[c]| != expected.value.size || stamp.0 != expected.value.mtimeSecs || stamp.1 != expected.value.mtimeNanos {
      if HashBytes(t[c]) != expected.value.content {
        r := r.(modified := r.modified + {rel});
      } else {
        r := r.(touched := r.touched + {rel});
      }
    }
  }

  /** The walk: compare every tracked file, in any order. */
  method CompareAll(t: Tree, stamps: Stamps, m: Manifest, full: bool) returns (r: Report, seen: set<string>)
    requires ProperTree(t)
    ensures ReportsSoFar(r, seen, t, stamps, m.files, full)
    ensures forall p :: p in seen <==> VisitedLive(t, {}, p)
  {
    r, seen := Report({}, {}, {}, {}), {};
    var todo := t.Keys;
    while todo != {}
      invariant todo <= t.Keys
      invariant forall p :: p in seen <==> VisitedLive(t, todo, p)
      invariant ReportsSoFar(r, seen, t, stamps, m.files, full)
    {
      var c :| c in todo;
      VisitMore(t, todo, c);
      todo := todo - {c};
      if IsExcluded(c) || IsIgnored(t, Join(c)) {
        continue;
      }
      r := CompareFile(t, stamps, m, full, c, seen, r);
      seen := seen + {Join(c)};
    }
  }

  lemma VisitedIsLive(t: Tree, p: string)
    requires ProperTree(t)
    ensures VisitedLive(t, {}, p) <==> Live(t, p).Some?
  {
  }

  /** Compare the live tree with a manifest.  Without `full`, a file whose metadata agrees is not
      rehashed, so exactly such modifications are missed.  With `full`, `touched` is not the files whose
      metadata changed, as its comment says, but every unchanged file. */
  method Detect(t: Tree, stamps: Stamps, m: Manifest, full: bool) returns (r: Report)
    requires ProperTree(t)
    ensures Reports(r, t, stamps, m.files, full)
    ensures forall p :: p in r.added || p in r.modified || p in r.touched ==> NamesPlainFile(t, p)
  {
    LiveIsPlain(t);
    var compared, seen := CompareAll(t, stamps, m, full);
    forall p ensures p in seen <==> Live(t, p).Some? {
      VisitedIsLive(t, p);
    }
    r := compared.(deleted := set f | f in m.files && f.path !in seen :: f.path);
  }

  /** There is a file at `p`, and none of the three names is among its components. */
  ghost predicate NamesPlainFile(t: Tree, p: string)
    requires ProperTree(t)
  {
    exists c :: c in t && Join(c) == p && KeptInView(c)
  }

  lemma LiveIsPlain(t: Tree)
    requires ProperTree(t)
    ensures forall p :: Live(t, p).Some? ==> NamesPlainFile(t, p)
  {
    forall p | Live(t, p).Some? ensures NamesPlainFile(t, p) {
      var c :| c in t && Tracked(t, c) && Join(c) == p;
      assert KeptInView(c);
    }
  }

  ghost predicate VisitedLive(t: Tree, todo: set<Comps>, p: string)
    requires ProperTree(t)
  {
    exists c :: c in t && c !in todo && Tracked(t, c) && Join(c) == p
  }

  lemma VisitMore(t: Tree, todo: set<Comps>, c: Comps)
    requires ProperTree(t) && c in t && c in todo
    ensures forall p :: VisitedLive(t, todo - {c}, p) <==> VisitedLive(t, todo, p) || (Tracked(t, c) && p == Join(c))
  {
    forall p ensures VisitedLive(t, todo - {c}, p) <==> VisitedLive(t, todo, p) || (Tracked(t, c) && p == Join(c)) {
      if VisitedLive(t, todo, p) {
        var d :| d in t && d !in todo && Tracked(t, d) && Join(d) == p;
        assert d !in todo - {c};
      }
      if Tracked(t, c) && p == Join(c) { assert c !in todo - {c}; }
    }
  }

  /** Files in `a` that differ from `b`. */
  method DiffManifests(a: Manifest, b: Manifest) returns (added: set<string>, modified: set<string>, deleted: set<string>)
    ensures forall p :: p in added <==> IsAdded(ContentAt(a.files, p), ContentAt(b.files, p))
    ensures forall p :: p in modified <==> IsModified(ContentAt(a.files, p), ContentAt(b.files, p))
    ensures forall p :: p in deleted <==> IsDeleted(ContentAt(a.files, p), ContentAt(b.files, p))
  {
    added, modified := {}, {};
    var todo := set f | f in a.files :: f.path;
    ghost var all := todo;
    while todo != {}
      invariant todo <= all
      invariant forall p :: p in added <==> p in all - todo && IsAdded(ContentAt(a.files, p), ContentAt(b.files, p))
      invariant forall p :: p in modified <==> p in all - todo && IsModified(ContentAt(a.files, p), ContentAt(b.files, p))
    {
      var p :| p in todo;
      todo := todo - {p};
      var fa, fb := LastAt(a.files, p), LastAt(b.files, p);
      if fb.None? {
        added := added + {p};
      } else if fb.value.content != fa.value.content {
        modified := modified + {p};
      }
    }
    var inA := set f | f in a.files :: f.path;
    deleted := set f | f in b.files && f.path !in inA :: f.path;
  }

  // ---------------------------------------------------------------------------------------------
  // Drift against HEAD is the diff of a fresh snapshot against HEAD
  // ---------------------------------------------------------------------------------------------

  lemma FreshContent(snap: Manifest, t: Tree, tombstones: seq<Tombstone>, p: string)
    requires ProperTree(t) && RecordsTree(snap, t, tombstones)
    ensures ContentAt(snap.files, p).Some? ==> ContentAt(snap.files, p) == Live(t, p)
    ensures ContentAt(snap.files, p).None? && Live(t, p).Some? ==>
              exists c :: c in t && Tracked(t, c) && Tombstoned(t, tombstones, c) && Join(c) == p
  {
    if ContentAt(snap.files, p).Some? {
      var e := LastAt(snap.files, p).value;
      assert Origin(t, tombstones, t.Keys, e);
      var c :| c in t && Captured(t, tombstones, c) && Join(c) == e.path;
      LiveAt(t, c);
    } else if Live(t, p).Some? {
      var c :| c in t && Tracked(t, c) && Join(c) == p;
      assert !Captured(t, tombstones, c);
    }
  }

  /** A full drift report lists what a diff of a fresh snapshot would, exactly when no tracked file
      of the tree is tombstoned: drift detection sees purged files, snapshots do not. */
  lemma DriftIsDiff(t: Tree, tombstones: seq<Tombstone>, head: Manifest, snap: Manifest, drift: Report, diff: Report)
    requires ProperTree(t) && RecordsTree(snap, t, tombstones)
    requires forall p :: p in drift.added <==> IsAdded(Live(t, p), ContentAt(head.files, p))
    requires forall p :: p in drift.modified <==> IsModified(Live(t, p), ContentAt(head.files, p))
    requires forall p :: p in drift.deleted <==> IsDeleted(Live(t, p), ContentAt(head.files, p))
    requires forall p :: p in diff.added <==> IsAdded(ContentAt(snap.files, p), ContentAt(head.files, p))
    requires forall p :: p in diff.modified <==> IsModified(ContentAt(snap.files, p), ContentAt(head.files, p))
    requires forall p :: p in diff.deleted <==> IsDeleted(ContentAt(snap.files, p), ContentAt(head.files, p))
    ensures drift.added == diff.added && drift.modified == diff.modified && drift.deleted == diff.deleted <==>
            forall c :: c in t && Tracked(t, c) ==> !Tombstoned(t, tombstones, c)
  {
    if forall c :: c in t && Tracked(t, c) ==> !Tombstoned(t, tombstones, c) {
      forall p ensures ContentAt(snap.files, p) == Live(t, p) {
        FreshContent(snap, t, tombstones, p);
      }
    } else {
      var c :| c in t && Tracked(t, c) && Tombstoned(t, tombstones, c);
      var p := Join(c);
      LiveAt(t, c);
      if ContentAt(snap.files, p).Some? {
        var e := LastAt(snap.files, p).value;
        assert Origin(t, tombstones, t.Keys, e);
        var d :| d in t && Captured(t, tombstones, d) && Join(d) == e.path;
        JoinInjective(c, d);
        assert false;
      }
      if ContentAt(head.files, p).None? {
        assert p in drift.added && p !in diff.added;
      } else {
        assert p !in drift.deleted && p in diff.deleted;
      }
    }
  }
}
