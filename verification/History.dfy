/** `snapshot::list`: every loadable snapshot, HEAD's ancestry first found, newest first returned. */
module History {
  import opened Core
  import opened Storage

  type Listing = seq<(Hash, Manifest)>

  ghost predicate NewestFirst(l: Listing) {
    forall i, j :: 0 <= i < j < |l| ==> l[i].1.timestamp >= l[j].1.timestamp
  }

  ghost predicate DistinctIds(l: Listing) {
    forall i, j :: 0 <= i < j < |l| ==> l[i].0 != l[j].0
  }

  function Insert(l: Listing, x: (Hash, Manifest)): Listing {
    if l == [] || l[|l| - 1].1.timestamp >= x.1.timestamp then l + [x]
    else Insert(l[..|l| - 1], x) + [l[|l| - 1]]
  }

  lemma {:induction false} InsertAdds(l: Listing, x: (Hash, Manifest))
    ensures multiset(Insert(l, x)) == multiset(l) + multiset{x}
  {
    if l != [] && l[|l| - 1].1.timestamp < x.1.timestamp {
      InsertAdds(l[..|l| - 1], x);
      assert l == l[..|l| - 1] + [l[|l| - 1]];
    }
  }

  lemma {:induction false} InsertSorted(l: Listing, x: (Hash, Manifest))
    requires NewestFirst(l)
    ensures NewestFirst(Insert(l, x))
  {
    if l != [] && l[|l| - 1].1.timestamp < x.1.timestamp {
      var init, last := l[..|l| - 1], l[|l| - 1];
      InsertSorted(init, x);
      InsertAdds(init, x);
      var r := Insert(init, x);
      forall i | 0 <= i < |r| ensures r[i].1.timestamp >= last.1.timestamp {
        assert r[i] in multiset(r);
      }
    }
  }

  lemma {:induction false} InsertDistinct(l: Listing, x: (Hash, Manifest))
    requires DistinctIds(l) && forall y :: y in l ==> y.0 != x.0
    ensures DistinctIds(Insert(l, x))
  {
    if l != [] && l[|l| - 1].1.timestamp < x.1.timestamp {
      var init, last := l[..|l| - 1], l[|l| - 1];
      InsertDistinct(init, x);
      InsertAdds(init, x);
      var r := Insert(init, x);
      forall i | 0 <= i < |r| ensures r[i].0 != last.0 {
        assert r[i] in multiset(r);
      }
    }
  }

  function SortNewestFirst(l: Listing): (r: Listing)
    requires DistinctIds(l)
    ensures NewestFirst(r) && DistinctIds(r) && multiset(r) == multiset(l)
  {
    if l == [] then []
    else
      var init, last := l[..|l| - 1], l[|l| - 1];
      var r := SortNewestFirst(init);
      assert l == init + [last];
      assert forall y :: y in r ==> y in multiset(r);
      InsertAdds(r, last);
      InsertSorted(r, last);
      InsertDistinct(r, last);
      Insert(r, last)
  }

  predicate Loadable(d: Disk, h: Hash) {
    h in d.manifests && Load(d, h).Ok?
  }

  /** `l` lists snapshots of `d`, each once, among the ids `seen`. */
  ghost predicate Lists(d: Disk, l: Listing, seen: set<Hash>) {
    && DistinctIds(l)
    && (forall x :: x in l ==> x.0 in seen && Load(d, x.0) == Ok(x.1))
    && (forall h :: h in seen && Loadable(d, h) ==> (h, Load(d, h).value) in l)
  }

  lemma ListsOneMore(d: Disk, l: Listing, seen: set<Hash>, h: Hash)
    requires Lists(d, l, seen) && h !in seen
    ensures Loadable(d, h) ==> Lists(d, l + [(h, Load(d, h).value)], seen + {h})
    ensures !Loadable(d, h) ==> Lists(d, l, seen + {h})
  {
    if Loadable(d, h) {
      var longer := l + [(h, Load(d, h).value)];
      forall g | g in seen + {h} && Loadable(d, g) ensures (g, Load(d, g).value) in longer {
        if g != h { assert (g, Load(d, g).value) in l; }
      }
    }
  }

  predicate StoredId(d: Disk, id: Option<Hash>) {
    id.Some? ==> id.value in d.manifests
  }

  /** `ids` holds HEAD's ancestry as far as it can be walked, and all of it loads. */
  predicate LoadsFrom(d: Disk, id: Option<Hash>, ids: set<Hash>) {
    && (id.Some? ==> id.value in ids)
    && forall h :: h in ids ==> Loadable(d, h) && (Load(d, h).value.parent.Some? ==> Load(d, h).value.parent.value in ids)
  }

  /** HEAD's ancestry loads, down to its end or round in a circle. */
  ghost predicate AncestryLoads(d: Disk) { exists ids :: LoadsFrom(d, d.head, ids) }

  /** What has been walked loads, and leads to `cur`. */
  predicate WalkedTo(d: Disk, seen: set<Hash>, cur: Option<Hash>) {
    && (d.head.Some? ==> d.head.value in seen || cur == d.head)
    && forall h :: h in seen ==> LeadsOn(d, seen, cur, h)
  }

  predicate LeadsOn(d: Disk, seen: set<Hash>, cur: Option<Hash>, h: Hash) {
    && Loadable(d, h)
    && var parent := Load(d, h).value.parent;
       parent.Some? ==> parent.value in seen || cur == parent
  }

  /** Walk HEAD's ancestry, then everything else.  A broken ancestor is an error, a broken orphan is
      passed over. */
  method List(store: Store) returns (r: Result<Listing>)
    ensures r.Ok? ==> Lists(store.Now(), r.value, store.manifests.Keys) && NewestFirst(r.value)
    ensures r.Ok? <==> AncestryLoads(store.Now())
  {
    var d := Disk(store.objects, store.manifests, store.head, store.tombstones);
    var seen: set<Hash> := {};
    var out: Listing := [];
    var cur := store.head;
    while cur.Some? && cur.value !in seen
      invariant seen <= d.manifests.Keys && Lists(d, out, seen) && WalkedTo(d, seen, cur)
      invariant forall ids :: LoadsFrom(d, d.head, ids) ==> cur.Some? ==> cur.value in ids
      decreases d.manifests.Keys - seen
    {
      var id := cur.value;
      assert !Loadable(d, id) ==> forall ids :: !LoadsFrom(d, d.head, ids);
      var m :- Load(d, id);
      ListsOneMore(d, out, seen, id);
      assert id in d.manifests.Keys - seen && id !in d.manifests.Keys - (seen + {id});
      seen := seen + {id};
      out := out + [(id, m)];
      cur := m.parent;
    }
    assert LoadsFrom(d, d.head, seen);
    var todo := d.manifests.Keys - seen;
    while todo != {}
      invariant todo <= d.manifests.Keys && seen == d.manifests.Keys - todo
      invariant Lists(d, out, seen)
    {
      var id :| id in todo;
      todo := todo - {id};
      ListsOneMore(d, out, seen, id);
      seen := seen + {id};
      if Load(d, id).Ok? {
        out := out + [(id, Load(d, id).value)];
      }
    }
    assert seen == d.manifests.Keys;
    SortedLists(d, out, seen);
    return Ok(SortNewestFirst(out));
  }

  lemma SortedLists(d: Disk, l: Listing, seen: set<Hash>)
    requires Lists(d, l, seen)
    ensures Lists(d, SortNewestFirst(l), seen)
  {
    var r := SortNewestFirst(l);
    assert forall x :: x in multiset(r) <==> x in multiset(l);
    forall x ensures x in r <==> x in l {
      assert x in multiset(r) <==> x in multiset(l);
    }
  }
}
