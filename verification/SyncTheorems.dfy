/** What a pull that went through leaves behind. */
module SyncTheorems {
  import opened Core
  import opened Storage
  import opened Snapshots
  import opened History
  import opened Sync

  /** Manifests have arrived, and all their chunks with them. */
  ghost predicate PullsComplete(d: Disk, d': Disk) {
    && Grows(d, d')
    && forall h :: h in d'.manifests && h !in d.manifests && Loadable(d', h) ==> ChunksPresent(d'.objects, Load(d', h).value.files)
  }

  /** What a finished pull has to show for itself, down to the truth of what the peer denied. */
  ghost predicate PulledFrom(remote: Remote, d0: Disk, d: Disk, report: PullReport,
                             visited: set<Hash>, needed: set<Hash>, denied: set<Hash>)
  {
    && Understood(remote) && Pulled(d0, d, report, visited, needed, denied) && SameAsPeer(remote, d, visited)
    && forall ch :: ch in denied ==> Denied(remote, ch)
  }

  /** The stored manifests of `d0` with what the pull brought: all load, with parents and chunks. */
  ghost predicate ClosedWith(d0: Disk, visited: set<Hash>, needed: set<Hash>) {
    forall h :: h in d0.manifests ==> ClosedAt(d0, visited, needed, h)
  }

  ghost predicate ClosedAt(d0: Disk, visited: set<Hash>, needed: set<Hash>, h: Hash) {
    && Loadable(d0, h)
    && var m := Load(d0, h).value;
       && (m.parent.Some? ==> m.parent.value in d0.manifests || m.parent.value in visited)
       && forall e, ch :: e in m.files && ch in e.chunks ==> ch in d0.objects || ch in needed
  }

  lemma NeededArrived(remote: Remote, d0: Disk, d: Disk, report: PullReport, visited: set<Hash>, needed: set<Hash>, denied: set<Hash>)
    requires PulledFrom(remote, d0, d, report, visited, needed, denied) && Complete(remote.d)
    ensures forall ch :: ch in d.objects <==> ch in d0.objects || ch in needed
    ensures PullsComplete(d0, d)
  {
    forall h, e, ch | h in visited && e in Load(d, h).value.files && ch in e.chunks ensures ch in remote.d.objects {
      assert SameManifest(remote.d, d, h);
    }
    forall ch | ch in needed ensures ch in d.objects {
      assert NamedBy(d, visited, ch);
      assert ch in denied ==> Denied(remote, ch);
    }
    forall h | h in visited ensures ChunksPresent(d.objects, Load(d, h).value.files) {
      forall e, ch | e in Load(d, h).value.files && ch in e.chunks ensures ch in d.objects {
        assert NamedBy(d, visited, ch);
      }
    }
  }

  /** `h` and everything it refers to is in `d`. */
  ghost predicate WholeAt(d: Disk, h: Hash) {
    Loadable(d, h) && StoredId(d, Load(d, h).value.parent) && ChunksPresent(d.objects, Load(d, h).value.files)
  }

  lemma OldIsWhole(d0: Disk, d: Disk, visited: set<Hash>, needed: set<Hash>, h: Hash)
    requires Grows(d0, d) && h in d0.manifests
    requires forall g :: g in d.manifests <==> g in d0.manifests || g in visited
    requires forall ch :: ch in d.objects <==> ch in d0.objects || ch in needed
    ensures WholeAt(d, h) <==> ClosedAt(d0, visited, needed, h)
  {
    assert Load(d, h) == Load(d0, h);
  }

  lemma NewIsWhole(d0: Disk, d: Disk, visited: set<Hash>, h: Hash)
    requires PullsComplete(d0, d) && h in visited && h in d.manifests && h !in d0.manifests
    requires Loadable(d, h) && StoredId(d, Load(d, h).value.parent)
    ensures WholeAt(d, h)
  {
  }

  /** From an honest peer whose manifests have all their chunks, everything that arrives is complete, and
      the store ends closed under parents and chunks exactly when what it had before is closed with the
      help of what came.  So a closed store stays closed, and holds the peer's head. */
  lemma PullFromCompletePeer(remote: Remote, d0: Disk, d: Disk, report: PullReport,
                             visited: set<Hash>, needed: set<Hash>, denied: set<Hash>)
    requires PulledFrom(remote, d0, d, report, visited, needed, denied) && Complete(remote.d)
    ensures PullsComplete(d0, d) && report.remoteHead.value in d.manifests
    ensures Closed(d) <==> ClosedWith(d0, visited, needed)
    ensures Closed(d0) ==> Closed(d)
  {
    NeededArrived(remote, d0, d, report, visited, needed, denied);
    forall h | h in d0.manifests ensures WholeAt(d, h) <==> ClosedAt(d0, visited, needed, h) {
      OldIsWhole(d0, d, visited, needed, h);
    }
    forall h | h in visited ensures WholeAt(d, h) {
      NewIsWhole(d0, d, visited, h);
    }
    ClosedIff(d0, d, visited, needed);
  }

  lemma ClosedIff(d0: Disk, d: Disk, visited: set<Hash>, needed: set<Hash>)
    requires forall g :: g in d.manifests <==> g in d0.manifests || g in visited
    requires forall h :: h in visited ==> WholeAt(d, h)
    requires forall h :: h in d0.manifests ==> (WholeAt(d, h) <==> ClosedAt(d0, visited, needed, h))
    ensures Closed(d) <==> ClosedWith(d0, visited, needed)
    ensures Closed(d0) ==> Closed(d)
  {
    if Closed(d) {
      forall h | h in d0.manifests ensures ClosedAt(d0, visited, needed, h) {
        assert h in d.manifests;
        assert WholeAt(d, h);
      }
    }
    if ClosedWith(d0, visited, needed) {
      forall h | h in d.manifests ensures WholeAt(d, h) {
        if h in d0.manifests { assert ClosedAt(d0, visited, needed, h); }
      }
    }
    if Closed(d0) {
      forall h | h in d0.manifests ensures ClosedAt(d0, visited, needed, h) {
      }
    }
  }

  // ---------------------------------------------------------------------------------------------
  // What arrives can be rebuilt
  // ---------------------------------------------------------------------------------------------

  /** Every file of every manifest that parses can be rebuilt from the store's own chunks. */
  ghost predicate Rebuildable(d: Disk) {
    forall h, e :: h in d.manifests && Deserialize(d.manifests[h]).Ok? && e in Deserialize(d.manifests[h]).value.files ==>
      Restores(d.objects, e)
  }

  lemma RebuildableIsComplete(d: Disk)
    requires Rebuildable(d)
    ensures Complete(d)
  {
    forall h | h in d.manifests && Deserialize(d.manifests[h]).Ok?
      ensures ChunksPresent(d.objects, Deserialize(d.manifests[h]).value.files)
    {
      forall e, ch | e in Deserialize(d.manifests[h]).value.files && ch in e.chunks ensures ch in d.objects {
        assert Restores(d.objects, e);
        AssembledChunks(d.objects, e.chunks);
      }
    }
  }

  /** What is read from two intact stores under one name is the same. */
  lemma SameRead(d: Disk, objects: map<Hash, Bytes>, chunks: seq<Hash>)
    requires CollisionFree() && Intact(d)
    requires Assemble(objects, chunks).Ok? && forall ch :: ch in chunks ==> ch in d.objects
    ensures Assemble(d.objects, chunks) == Assemble(objects, chunks)
  {
    AssembledChunks(objects, chunks);
    forall ch | ch in chunks ensures ReadObject(d.objects, ch) == ReadObject(objects, ch) {
      assert HashBytes(d.objects[ch]) == ch && HashBytes(objects[ch]) == ch;
    }
    AssembleSame(objects, d.objects, chunks);
  }

  /** Pulled from a peer that can rebuild its own files, every new file can be rebuilt here. */
  lemma PulledRestores(remote: Remote, d0: Disk, d: Disk, report: PullReport, visited: set<Hash>, needed: set<Hash>, denied: set<Hash>)
    requires CollisionFree() && Intact(d)
    requires PulledFrom(remote, d0, d, report, visited, needed, denied) && Rebuildable(remote.d)
    ensures forall h, e :: h in visited && e in Load(d, h).value.files ==> Restores(d.objects, e)
  {
    RebuildableIsComplete(remote.d);
    NeededArrived(remote, d0, d, report, visited, needed, denied);
    forall h, e | h in visited && e in Load(d, h).value.files ensures Restores(d.objects, e) {
      ArrivedRestores(remote, d0, d, visited, h, e);
    }
  }

  lemma ArrivedRestores(remote: Remote, d0: Disk, d: Disk, visited: set<Hash>, h: Hash, e: FileEntry)
    requires CollisionFree() && Intact(d) && Understood(remote) && Rebuildable(remote.d) && SameAsPeer(remote, d, visited)
    requires PullsComplete(d0, d) && h in visited && h !in d0.manifests && Loadable(d, h) && e in Load(d, h).value.files
    ensures Restores(d.objects, e)
  {
    assert SameManifest(remote.d, d, h);
    assert Restores(remote.d.objects, e);
    SameRead(d, remote.d.objects, e.chunks);
  }

  lemma {:induction false} SameSizeSubset<T>(a: set<T>, b: set<T>)
    requires a <= b && |a| == |b|
    ensures a == b
  {
    assert b == a + (b - a);
    assert |b| == |a| + |b - a|;
  }

  /** A pull does not repair: when the peer's head is stored already, nothing is fetched, whatever the
      local store lacks below it. */
  lemma PullDoesNotRepair(d0: Disk, d: Disk, report: PullReport, needed: set<Hash>, denied: set<Hash>)
    requires Pulled(d0, d, report, {}, needed, denied)
    ensures d == d0
  {
    assert forall ch :: ch !in needed by {
      forall ch ensures ch !in needed { assert !NamedBy(d, {}, ch); }
    }
    assert needed == {};
    SameSizeSubset(d0.objects.Keys, d.objects.Keys);
    assert d.objects.Keys == d0.objects.Keys && d.manifests.Keys == d0.manifests.Keys;
    assert d.objects == d0.objects && d.manifests == d0.manifests;
  }
}
