/** Surgical undo: `revert::surgical_manifest`.

    The first half says, path by path and without any fold, what undoing one actor means.  The second
    half is the fold of the source with its five accumulators, proved against that reading. */
module Undo {
  import opened Core
  import opened Ordering

  // ---------------------------------------------------------------------------------------------
  // The declarative reading.  A position (i, k) is entry k of snapshot i, oldest snapshot first.
  // ---------------------------------------------------------------------------------------------

  predicate ByActor(m: Manifest, actor: string) { m.actor == Some(actor) }

  function EntryBefore(chain: seq<Manifest>, i: nat, p: string): Option<FileEntry>
    requires i <= |chain|
  {
    if i == 0 then None else LastAt(chain[i - 1].files, p)
  }

  function ContentBefore(chain: seq<Manifest>, i: nat, p: string): Option<Hash>
    requires i <= |chain|
  {
    if i == 0 then None else ContentAt(chain[i - 1].files, p)
  }

  /** Snapshot `i` is the actor's and disagrees at `p` with the snapshot before it. */
  predicate TouchedAt(chain: seq<Manifest>, actor: string, i: nat, p: string)
    requires i < |chain|
  {
    ByActor(chain[i], actor) && ContentAt(chain[i].files, p) != ContentBefore(chain, i, p)
  }

  ghost predicate TouchedBy(chain: seq<Manifest>, actor: string, n: nat, p: string)
    requires n <= |chain|
  {
    exists i: nat :: i < n && TouchedAt(chain, actor, i, p)
  }

  ghost predicate Touched(chain: seq<Manifest>, actor: string, p: string) {
    TouchedBy(chain, actor, |chain|, p)
  }

  /** Some snapshot of the actor before `n` holds the bytes `h` at `p`, changed there or not. */
  ghost predicate HeldBefore(chain: seq<Manifest>, actor: string, n: nat, p: string, h: Hash)
    requires n <= |chain|
  {
    exists j: nat :: j < n && ByActor(chain[j], actor) && ContentAt(chain[j].files, p) == Some(h)
  }

  /** Entry `k` of snapshot `i` is somebody else's state of `p`, not bytes the actor had there already. */
  ghost predicate Foreign(chain: seq<Manifest>, actor: string, p: string, i: nat, k: nat) {
    && i < |chain| && k < |chain[i].files|
    && !ByActor(chain[i], actor)
    && chain[i].files[k].path == p
    && !HeldBefore(chain, actor, i, p, chain[i].files[k].content)
  }

  predicate Earlier(i: nat, k: nat, i': nat, k': nat) { i < i' || (i == i' && k < k') }

  /** `e` is the newest foreign entry of `p` among the positions before (n, d). */
  ghost predicate NewestForeign(chain: seq<Manifest>, actor: string, n: nat, d: nat, p: string, e: FileEntry) {
    exists i: nat, k: nat ::
      && Foreign(chain, actor, p, i, k) && Earlier(i, k, n, d)
      && chain[i].files[k] == e
      && forall i': nat, k': nat :: Foreign(chain, actor, p, i', k') && Earlier(i', k', n, d) ==> !Earlier(i, k, i', k')
  }

  ghost predicate NoForeign(chain: seq<Manifest>, actor: string, n: nat, d: nat, p: string) {
    forall i: nat, k: nat :: Foreign(chain, actor, p, i, k) ==> !Earlier(i, k, n, d)
  }

  /** `r` is what a touched path falls back to, judging by the positions before (n, d). */
  ghost predicate FallsBackTo(chain: seq<Manifest>, actor: string, n: nat, d: nat, p: string, r: Option<FileEntry>) {
    match r
    case None => NoForeign(chain, actor, n, d, p)
    case Some(e) => NewestForeign(chain, actor, n, d, p, e)
  }

  /** What the virtual manifest owes path `p`. */
  ghost predicate UndoneTo(chain: seq<Manifest>, actor: string, p: string, r: Option<FileEntry>)
    requires chain != []
  {
    if Touched(chain, actor, p)
    then FallsBackTo(chain, actor, |chain|, 0, p, r)
    else r == LastAt(chain[|chain| - 1].files, p)
  }

  lemma FallbackUnique(chain: seq<Manifest>, actor: string, n: nat, d: nat, p: string, r: Option<FileEntry>, r': Option<FileEntry>)
    requires FallsBackTo(chain, actor, n, d, p, r) && FallsBackTo(chain, actor, n, d, p, r')
    ensures r == r'
  {
    if r.Some? && r'.Some? {
      var i: nat, k: nat :|
        && Foreign(chain, actor, p, i, k) && Earlier(i, k, n, d) && chain[i].files[k] == r.value
        && forall i': nat, k': nat :: Foreign(chain, actor, p, i', k') && Earlier(i', k', n, d) ==> !Earlier(i, k, i', k');
      var j: nat, l: nat :|
        && Foreign(chain, actor, p, j, l) && Earlier(j, l, n, d) && chain[j].files[l] == r'.value
        && forall i': nat, k': nat :: Foreign(chain, actor, p, i', k') && Earlier(i', k', n, d) ==> !Earlier(j, l, i', k');
      assert !Earlier(i, k, j, l) && !Earlier(j, l, i, k);
    }
  }

  lemma EarlierStep(i: nat, k: nat, n: nat, d: nat)
    ensures Earlier(i, k, n, d + 1) <==> Earlier(i, k, n, d) || (i == n && k == d)
  {
  }

  /** One step of the fold at position (n, d). */
  lemma FallbackStep(chain: seq<Manifest>, actor: string, n: nat, d: nat, p: string, r: Option<FileEntry>)
    requires n < |chain| && d < |chain[n].files|
    requires FallsBackTo(chain, actor, n, d, p, r)
    ensures FallsBackTo(chain, actor, n, d + 1, p,
                        if Foreign(chain, actor, p, n, d) then Some(chain[n].files[d]) else r)
  {
    forall i: nat, k: nat
      ensures Earlier(i, k, n, d + 1) <==> Earlier(i, k, n, d) || (i == n && k == d)
    {
      EarlierStep(i, k, n, d);
    }
    if Foreign(chain, actor, p, n, d) {
      assert Earlier(n, d, n, d + 1);
    } else if r.Some? {
      var i: nat, k: nat :|
        && Foreign(chain, actor, p, i, k) && Earlier(i, k, n, d) && chain[i].files[k] == r.value
        && forall i': nat, k': nat :: Foreign(chain, actor, p, i', k') && Earlier(i', k', n, d) ==> !Earlier(i, k, i', k');
      assert Earlier(i, k, n, d + 1);
    }
  }

  /** After the last entry of snapshot `n` the fold stands at the first entry of the next one. */
  lemma FallbackNextSnapshot(chain: seq<Manifest>, actor: string, n: nat, d: nat, p: string, r: Option<FileEntry>)
    requires n < |chain|
    requires d == |chain[n].files| || ByActor(chain[n], actor)
    requires FallsBackTo(chain, actor, n, d, p, r)
    ensures FallsBackTo(chain, actor, n + 1, 0, p, r)
  {
    assert forall i: nat, k: nat :: Foreign(chain, actor, p, i, k) ==> (Earlier(i, k, n + 1, 0) <==> Earlier(i, k, n, d));
    if r.Some? {
      var i: nat, k: nat :|
        && Foreign(chain, actor, p, i, k) && Earlier(i, k, n, d) && chain[i].files[k] == r.value
        && forall i': nat, k': nat :: Foreign(chain, actor, p, i', k') && Earlier(i', k', n, d) ==> !Earlier(i, k, i', k');
      assert Earlier(i, k, n + 1, 0);
    }
  }

  /** A path seen before its first touch has a foreign entry: its first occurrence ever. */
  lemma {:induction false} SeenIsForeign(chain: seq<Manifest>, actor: string, p: string, j: nat) returns (i: nat, k: nat)
    requires j < |chain|
    requires ContentAt(chain[j].files, p).Some?
    requires !TouchedBy(chain, actor, j + 1, p)
    ensures i <= j && Foreign(chain, actor, p, i, k)
  {
    if j' :| 0 <= j' < j && ContentAt(chain[j'].files, p).Some? {
      i, k := SeenIsForeign(chain, actor, p, j');
    } else {
      i := j;
      k :| 0 <= k < |chain[j].files| && chain[j].files[k].path == p;
      assert ContentBefore(chain, j, p) == None;
      assert !TouchedAt(chain, actor, j, p);
    }
  }

  /** The pre-touch entry is never the one that decides: whenever the path existed before the actor
      first touched it, a foreign entry is on record already. */
  lemma PreTouchNeverNeeded(chain: seq<Manifest>, actor: string, n: nat, p: string)
    requires n < |chain| && TouchedAt(chain, actor, n, p) && !TouchedBy(chain, actor, n, p)
    requires EntryBefore(chain, n, p).Some?
    ensures !NoForeign(chain, actor, n, 0, p)
  {
    var i, k := SeenIsForeign(chain, actor, p, n - 1);
    assert Earlier(i, k, n, 0);
  }

  // ---------------------------------------------------------------------------------------------
  // The fold
  // ---------------------------------------------------------------------------------------------

  ghost predicate Records(held: map<string, set<Hash>>, p: string, h: Hash) { p in held && h in held[p] }

  function ContentIn(m: map<string, FileEntry>, p: string): Option<Hash> {
    if p in m then Some(m[p].content) else None
  }

  method Collect(files: seq<FileEntry>) returns (m: map<string, FileEntry>)
    ensures forall p :: Lookup(m, p) == LastAt(files, p)
  {
    m := map[];
    for n := 0 to |files|
      invariant forall p :: Lookup(m, p) == LastAt(files[..n], p)
    {
      m := m[files[n].path := files[n]];
      assert files[..n + 1][..n] == files[..n];
    }
    assert files[..|files|] == files;
  }

  /** One snapshot of the actor, first loop: the paths it holds, in any order. */
  method ReplayPresent(cur: map<string, FileEntry>, prev: map<string, FileEntry>, touched0: set<string>,
                       pre0: map<string, Option<FileEntry>>, held0: map<string, set<Hash>>)
    returns (touched: set<string>, pre: map<string, Option<FileEntry>>, held: map<string, set<Hash>>)
    ensures forall p :: p in touched <==> p in touched0 || (p in cur && ContentIn(cur, p) != ContentIn(prev, p))
    ensures forall p :: p in pre <==> p in pre0 || (p in cur && ContentIn(cur, p) != ContentIn(prev, p))
    ensures forall p :: p in pre ==> pre[p] == if p in pre0 then pre0[p] else Lookup(prev, p)
    ensures forall p, h :: Records(held, p, h) <==> Records(held0, p, h) || ContentIn(cur, p) == Some(h)
  {
    touched, pre, held := touched0, pre0, held0;
    var todo := cur.Keys;
    while todo != {}
      invariant todo <= cur.Keys
      invariant forall p :: p in touched <==> p in touched0 || (p in cur && p !in todo && ContentIn(cur, p) != ContentIn(prev, p))
      invariant forall p :: p in pre <==> p in pre0 || (p in cur && p !in todo && ContentIn(cur, p) != ContentIn(prev, p))
      invariant forall p :: p in pre ==> pre[p] == if p in pre0 then pre0[p] else Lookup(prev, p)
      invariant forall p, h :: Records(held, p, h) <==> Records(held0, p, h) || (p !in todo && ContentIn(cur, p) == Some(h))
    {
      var p :| p in todo;
      if ContentIn(prev, p) != Some(cur[p].content) {
        touched := touched + {p};
        pre := if p in pre then pre else pre[p := Lookup(prev, p)];
      }
      held := Record(held, p, cur[p].content);
      todo := todo - {p};
    }
  }

  function Record(held: map<string, set<Hash>>, p: string, h: Hash): (r: map<string, set<Hash>>)
    ensures forall q, g :: Records(r, q, g) <==> Records(held, q, g) || (q == p && g == h)
  {
    held[p := (if p in held then held[p] else {}) + {h}]
  }

  /** Second loop: the paths that the snapshot before it held and it does not. */
  method ReplayAbsent(cur: map<string, FileEntry>, prev: map<string, FileEntry>, touched0: set<string>,
                      pre0: map<string, Option<FileEntry>>)
    returns (touched: set<string>, pre: map<string, Option<FileEntry>>)
    ensures forall p :: p in touched <==> p in touched0 || (p in prev && p !in cur)
    ensures forall p :: p in pre <==> p in pre0 || (p in prev && p !in cur)
    ensures forall p :: p in pre ==> pre[p] == if p in pre0 then pre0[p] else Lookup(prev, p)
  {
    touched, pre := touched0, pre0;
    var todo := prev.Keys;
    while todo != {}
      invariant todo <= prev.Keys
      invariant forall p :: p in touched <==> p in touched0 || (p in prev && p !in cur && p !in todo)
      invariant forall p :: p in pre <==> p in pre0 || (p in prev && p !in cur && p !in todo)
      invariant forall p :: p in pre ==> pre[p] == if p in pre0 then pre0[p] else Lookup(prev, p)
    {
      var p :| p in todo;
      if p !in cur {
        touched := touched + {p};
        pre := if p in pre then pre else pre[p := Lookup(prev, p)];
      }
      todo := todo - {p};
    }
  }

  /** One snapshot of anybody else. */
  method ReplayOther(ghost chain: seq<Manifest>, ghost actor: string, ghost n: nat,
                     files: seq<FileEntry>, held: map<string, set<Hash>>, effective0: map<string, FileEntry>)
    returns (effective: map<string, FileEntry>)
    requires n < |chain| && chain[n].files == files && !ByActor(chain[n], actor)
    requires forall p, h :: Records(held, p, h) <==> HeldBefore(chain, actor, n, p, h)
    requires forall p :: FallsBackTo(chain, actor, n, 0, p, Lookup(effective0, p))
    ensures forall p :: FallsBackTo(chain, actor, n, |files|, p, Lookup(effective, p))
    ensures effective0.Keys <= effective.Keys
  {
    effective := effective0;
    for d := 0 to |files|
      invariant forall p :: FallsBackTo(chain, actor, n, d, p, Lookup(effective, p))
      invariant effective0.Keys <= effective.Keys
    {
      var fe := files[d];
      ghost var was := effective;
      var actorBytes := fe.path in held && fe.content in held[fe.path];
      assert actorBytes == Records(held, fe.path, fe.content);
      if !actorBytes {
        effective := effective[fe.path := fe];
      }
      forall p ensures FallsBackTo(chain, actor, n, d + 1, p, Lookup(effective, p)) {
        FallbackStep(chain, actor, n, d, p, Lookup(was, p));
      }
    }
  }

  /** Every accumulator after the first `n` snapshots. */
  ghost predicate FoldState(chain: seq<Manifest>, actor: string, n: nat, touched: set<string>,
                            pre: map<string, Option<FileEntry>>, held: map<string, set<Hash>>,
                            effective: map<string, FileEntry>, prev: map<string, FileEntry>)
    requires n <= |chain|
  {
    && (forall p :: p in touched <==> TouchedBy(chain, actor, n, p))
    && pre.Keys == touched
    && (forall p :: p in pre && pre[p].Some? ==> p in effective)
    && (forall p, h :: Records(held, p, h) <==> HeldBefore(chain, actor, n, p, h))
    && (forall p :: FallsBackTo(chain, actor, n, 0, p, Lookup(effective, p)))
    && (forall p :: Lookup(prev, p) == EntryBefore(chain, n, p))
  }

  lemma PreTouchCovered(chain: seq<Manifest>, actor: string, n: nat, p: string, effective: map<string, FileEntry>)
    requires n < |chain| && TouchedAt(chain, actor, n, p) && !TouchedBy(chain, actor, n, p)
    requires EntryBefore(chain, n, p).Some?
    requires FallsBackTo(chain, actor, n, 0, p, Lookup(effective, p))
    ensures p in effective
  {
    PreTouchNeverNeeded(chain, actor, n, p);
  }

  /** A change of the actor's at `p`, seen through the accumulators. */
  predicate Differs(cur: map<string, FileEntry>, prev: map<string, FileEntry>, p: string) {
    ContentIn(cur, p) != ContentIn(prev, p)
  }

  lemma DiffersIsTouched(chain: seq<Manifest>, actor: string, n: nat, cur: map<string, FileEntry>, prev: map<string, FileEntry>, p: string)
    requires n < |chain| && ByActor(chain[n], actor)
    requires Lookup(cur, p) == LastAt(chain[n].files, p) && Lookup(prev, p) == EntryBefore(chain, n, p)
    ensures Differs(cur, prev, p) <==> TouchedAt(chain, actor, n, p)
    ensures ContentIn(cur, p) == ContentAt(chain[n].files, p)
  {
  }

  lemma ActorTouches(chain: seq<Manifest>, actor: string, n: nat, cur: map<string, FileEntry>,
                     touched: set<string>, pre: map<string, Option<FileEntry>>, held: map<string, set<Hash>>,
                     effective: map<string, FileEntry>, prev: map<string, FileEntry>,
                     touched': set<string>, pre': map<string, Option<FileEntry>>, p: string)
    requires n < |chain| && ByActor(chain[n], actor)
    requires FoldState(chain, actor, n, touched, pre, held, effective, prev)
    requires Lookup(cur, p) == LastAt(chain[n].files, p)
    requires p in touched' <==> p in touched || Differs(cur, prev, p)
    requires p in pre' <==> p in pre || Differs(cur, prev, p)
    requires p in pre' ==> pre'[p] == if p in pre then pre[p] else Lookup(prev, p)
    ensures p in touched' <==> TouchedBy(chain, actor, n + 1, p)
    ensures p in pre' <==> p in touched'
    ensures p in pre' && pre'[p].Some? ==> p in effective
  {
    assert Lookup(prev, p) == EntryBefore(chain, n, p);
    DiffersIsTouched(chain, actor, n, cur, prev, p);
    TouchedStep(chain, actor, n, p);
    assert FallsBackTo(chain, actor, n, 0, p, Lookup(effective, p));
    if p !in pre && p in pre' && pre'[p].Some? {
      PreTouchCovered(chain, actor, n, p, effective);
    }
  }

  lemma FoldActorStep(chain: seq<Manifest>, actor: string, n: nat, cur: map<string, FileEntry>,
                      touched: set<string>, pre: map<string, Option<FileEntry>>, held: map<string, set<Hash>>,
                      effective: map<string, FileEntry>, prev: map<string, FileEntry>,
                      touched': set<string>, pre': map<string, Option<FileEntry>>, held': map<string, set<Hash>>)
    requires n < |chain| && ByActor(chain[n], actor)
    requires FoldState(chain, actor, n, touched, pre, held, effective, prev)
    requires forall p :: Lookup(cur, p) == LastAt(chain[n].files, p)
    requires forall p :: p in touched' <==> p in touched || Differs(cur, prev, p)
    requires forall p :: p in pre' <==> p in pre || Differs(cur, prev, p)
    requires forall p :: p in pre' ==> pre'[p] == if p in pre then pre[p] else Lookup(prev, p)
    requires forall p, h :: Records(held', p, h) <==> Records(held, p, h) || ContentIn(cur, p) == Some(h)
    ensures FoldState(chain, actor, n + 1, touched', pre', held', effective, cur)
  {
    forall p
      ensures p in touched' <==> TouchedBy(chain, actor, n + 1, p)
      ensures p in pre' <==> p in touched'
      ensures p in pre' && pre'[p].Some? ==> p in effective
    {
      ActorTouches(chain, actor, n, cur, touched, pre, held, effective, prev, touched', pre', p);
    }
    forall p ensures FallsBackTo(chain, actor, n + 1, 0, p, Lookup(effective, p)) {
      FallbackNextSnapshot(chain, actor, n, 0, p, Lookup(effective, p));
    }
    forall p, h ensures Records(held', p, h) <==> HeldBefore(chain, actor, n + 1, p, h) {
      assert Lookup(cur, p) == LastAt(chain[n].files, p);
      HeldStep(chain, actor, n, p, h);
    }
    assert pre'.Keys == touched';
  }

  lemma FoldOtherStep(chain: seq<Manifest>, actor: string, n: nat, cur: map<string, FileEntry>,
                      touched: set<string>, pre: map<string, Option<FileEntry>>, held: map<string, set<Hash>>,
                      effective: map<string, FileEntry>, prev: map<string, FileEntry>, effective': map<string, FileEntry>)
    requires n < |chain| && !ByActor(chain[n], actor)
    requires FoldState(chain, actor, n, touched, pre, held, effective, prev)
    requires forall p :: Lookup(cur, p) == LastAt(chain[n].files, p)
    requires forall p :: FallsBackTo(chain, actor, n, |chain[n].files|, p, Lookup(effective', p))
    requires effective.Keys <= effective'.Keys
    ensures FoldState(chain, actor, n + 1, touched, pre, held, effective', cur)
  {
    forall p
      ensures p in touched <==> TouchedBy(chain, actor, n + 1, p)
      ensures FallsBackTo(chain, actor, n + 1, 0, p, Lookup(effective', p))
    {
      TouchedStep(chain, actor, n, p);
      FallbackNextSnapshot(chain, actor, n, |chain[n].files|, p, Lookup(effective', p));
    }
    forall p, h ensures Records(held, p, h) <==> HeldBefore(chain, actor, n + 1, p, h) {
      HeldStep(chain, actor, n, p, h);
    }
  }

  method Replay(chain: seq<Manifest>, actor: string)
    returns (touched: set<string>, pre: map<string, Option<FileEntry>>, effective: map<string, FileEntry>)
    ensures Accumulated(chain, actor, touched, effective)
    ensures pre.Keys == touched
    ensures forall p :: p in pre && pre[p].Some? ==> p in effective
  {
    touched, pre, effective := {}, map[], map[];
    var held: map<string, set<Hash>> := map[];
    var prev: map<string, FileEntry> := map[];
    for n := 0 to |chain|
      invariant FoldState(chain, actor, n, touched, pre, held, effective, prev)
    {
      var m := chain[n];
      var cur := Collect(m.files);
      if m.actor == Some(actor) {
        var touched', pre', held' := ReplayPresent(cur, prev, touched, pre, held);
        touched', pre' := ReplayAbsent(cur, prev, touched', pre');
        FoldActorStep(chain, actor, n, cur, touched, pre, held, effective, prev, touched', pre', held');
        touched, pre, held := touched', pre', held';
      } else {
        var effective' := ReplayOther(chain, actor, n, m.files, held, effective);
        FoldOtherStep(chain, actor, n, cur, touched, pre, held, effective, prev, effective');
        effective := effective';
      }
      prev := cur;
    }
  }

  lemma HeldStep(chain: seq<Manifest>, actor: string, n: nat, p: string, h: Hash)
    requires n < |chain|
    ensures HeldBefore(chain, actor, n + 1, p, h) <==>
              HeldBefore(chain, actor, n, p, h) || (ByActor(chain[n], actor) && ContentAt(chain[n].files, p) == Some(h))
  {
  }

  lemma TouchedStep(chain: seq<Manifest>, actor: string, n: nat, p: string)
    requires n < |chain|
    ensures TouchedBy(chain, actor, n + 1, p) <==> TouchedBy(chain, actor, n, p) || TouchedAt(chain, actor, n, p)
  {
  }

  /** Newest foreign entry, else the pre-touch entry, else nothing. */
  function Resolve(effective: map<string, FileEntry>, pre: map<string, Option<FileEntry>>, p: string): Option<FileEntry> {
    if p in effective then Some(effective[p]) else if p in pre then pre[p] else None
  }

  ghost predicate KeyedByPath(effective: map<string, FileEntry>) {
    forall p :: p in effective ==> effective[p].path == p
  }

  function Entries(e: Option<FileEntry>): seq<FileEntry> {
    if e.Some? then [e.value] else []
  }

  /** HEAD's entries, touched ones replaced or dropped. */
  function Kept(headFiles: seq<FileEntry>, touched: set<string>, effective: map<string, FileEntry>): seq<FileEntry> {
    if headFiles == [] then []
    else
      var f := headFiles[|headFiles| - 1];
      Kept(headFiles[..|headFiles| - 1], touched, effective)
      + if f.path in touched then Entries(Lookup(effective, f.path)) else [f]
  }

  /** The last entry that `Kept` has for one path. */
  lemma {:induction false} KeptLast(headFiles: seq<FileEntry>, touched: set<string>, effective: map<string, FileEntry>, p: string)
    requires KeyedByPath(effective)
    ensures LastAt(Kept(headFiles, touched, effective), p) ==
            if p !in touched || LastAt(headFiles, p).None? then LastAt(headFiles, p) else Lookup(effective, p)
  {
    if headFiles != [] {
      var init, f := headFiles[..|headFiles| - 1], headFiles[|headFiles| - 1];
      var kept := Kept(init, touched, effective);
      KeptLast(init, touched, effective, p);
      if f.path !in touched {
        LastAtAppend(kept, f, p);
      } else if f.path in effective {
        LastAtAppend(kept, effective[f.path], p);
      } else {
        assert kept + [] == kept;
      }
    }
  }

  /** How many entries `Kept` has for one path. */
  lemma {:induction false} KeptCount(headFiles: seq<FileEntry>, touched: set<string>, effective: map<string, FileEntry>, p: string)
    requires KeyedByPath(effective)
    ensures |EntriesAt(Kept(headFiles, touched, effective), p)| ==
            if p !in touched || p in effective then |EntriesAt(headFiles, p)| else 0
  {
    if headFiles != [] {
      var init, f := headFiles[..|headFiles| - 1], headFiles[|headFiles| - 1];
      var kept := Kept(init, touched, effective);
      KeptCount(init, touched, effective, p);
      if f.path !in touched {
        EntriesAtAppend(kept, f, p);
      } else if f.path in effective {
        EntriesAtAppend(kept, effective[f.path], p);
      } else {
        assert kept + [] == kept;
      }
    }
  }

  /** `missing` lists, in some order, what the paths among `done` that HEAD lacks fall back to. */
  ghost predicate Missing(headFiles: seq<FileEntry>, done: set<string>, effective: map<string, FileEntry>, missing: seq<FileEntry>) {
    && DistinctPaths(missing)
    && forall e :: e in missing <==>
         e.path in done && LastAt(headFiles, e.path).None? && Lookup(effective, e.path) == Some(e)
  }

  lemma MissingLast(headFiles: seq<FileEntry>, done: set<string>, effective: map<string, FileEntry>, missing: seq<FileEntry>, p: string)
    requires KeyedByPath(effective) && Missing(headFiles, done, effective, missing)
    ensures LastAt(missing, p) == if p in done && LastAt(headFiles, p).None? then Lookup(effective, p) else None
  {
    if p in done && LastAt(headFiles, p).None? && p in effective {
      LastAtDistinct(missing, effective[p]);
    }
  }

  /** Distinct paths: the entries of a path are its last one, if any. */
  lemma SingleAt(s: seq<FileEntry>, p: string)
    requires DistinctPaths(s)
    ensures EntriesAt(s, p) == Entries(LastAt(s, p))
  {
    DistinctAt(s);
    assert !NamedTwice(s, p);
    if LastAt(s, p).None? {
      NoneAt(s, p);
    } else {
      assert LastAt(s, p).value in EntriesAt(s, p);
    }
  }

  /** The virtual manifest's list before and after sorting: what HEAD keeps, then what it lacks. */
  ghost predicate Rebuilt(headFiles: seq<FileEntry>, touched: set<string>, effective: map<string, FileEntry>,
                          missing: seq<FileEntry>, files: seq<FileEntry>)
  {
    && Missing(headFiles, touched, effective, missing)
    && files == SortByPath(Kept(headFiles, touched, effective) + missing)
  }

  lemma {:induction false} LastAtConcat(s: seq<FileEntry>, t: seq<FileEntry>, p: string)
    ensures LastAt(s + t, p) == if LastAt(t, p).Some? then LastAt(t, p) else LastAt(s, p)
  {
    if t == [] {
      assert s + t == s;
    } else {
      assert s + t == (s + t[..|t| - 1]) + [t[|t| - 1]];
      LastAtAppend(s + t[..|t| - 1], t[|t| - 1], p);
      LastAtConcat(s, t[..|t| - 1], p);
    }
  }

  lemma RebuiltAt(headFiles: seq<FileEntry>, touched: set<string>, effective: map<string, FileEntry>,
                  missing: seq<FileEntry>, files: seq<FileEntry>, p: string)
    requires KeyedByPath(effective) && Rebuilt(headFiles, touched, effective, missing, files)
    ensures LastAt(files, p) == if p in touched then Lookup(effective, p) else LastAt(headFiles, p)
    ensures NamedTwice(files, p) <==> NamedTwice(headFiles, p) && (p !in touched || p in effective)
  {
    var kept := Kept(headFiles, touched, effective);
    SortLastAt(kept + missing, p);
    SortEntriesAt(kept + missing, p);
    LastAtConcat(kept, missing, p);
    EntriesAtConcat(kept, missing, p);
    KeptLast(headFiles, touched, effective, p);
    KeptCount(headFiles, touched, effective, p);
    MissingLast(headFiles, touched, effective, missing, p);
    SingleAt(missing, p);
    if LastAt(headFiles, p).None? { NoneAt(headFiles, p); }
  }

  /** The accumulators of the whole chain, as far as rebuilding needs them. */
  ghost predicate Accumulated(chain: seq<Manifest>, actor: string, touched: set<string>, effective: map<string, FileEntry>) {
    && (forall p :: p in touched <==> Touched(chain, actor, p))
    && (forall p :: FallsBackTo(chain, actor, |chain|, 0, p, Lookup(effective, p)))
  }

  lemma AccumulatedIsKeyed(chain: seq<Manifest>, actor: string, touched: set<string>, effective: map<string, FileEntry>)
    requires Accumulated(chain, actor, touched, effective)
    ensures KeyedByPath(effective)
  {
    forall p | p in effective ensures effective[p].path == p {
      assert FallsBackTo(chain, actor, |chain|, 0, p, Lookup(effective, p));
    }
  }

  function HeadFiles(chain: seq<Manifest>): seq<FileEntry>
    requires chain != []
  {
    chain[|chain| - 1].files
  }

  /** `files` is the list surgical undo builds for `chain`. */
  ghost predicate UndoneList(chain: seq<Manifest>, actor: string, files: seq<FileEntry>)
    requires chain != []
  {
    exists touched, effective, missing ::
      Accumulated(chain, actor, touched, effective) && Rebuilt(HeadFiles(chain), touched, effective, missing, files)
  }

  /** HEAD names `p` more than once, and the undo keeps it. */
  ghost predicate StaysDoubled(chain: seq<Manifest>, actor: string, p: string)
    requires chain != []
  {
    && NamedTwice(HeadFiles(chain), p)
    && (Touched(chain, actor, p) ==> !NoForeign(chain, actor, |chain|, 0, p))
  }

  /** The built list is sorted by path, owes each path exactly what the reading says, and is strictly
      sorted exactly when HEAD doubles no path that is kept. */
  lemma UndoneListMeans(chain: seq<Manifest>, actor: string, files: seq<FileEntry>)
    requires chain != [] && UndoneList(chain, actor, files)
    ensures SortedByPath(files)
    ensures forall p :: UndoneTo(chain, actor, p, LastAt(files, p))
    ensures StrictlySorted(files) <==> forall p :: !StaysDoubled(chain, actor, p)
  {
    var head := HeadFiles(chain);
    var touched, effective, missing :|
      Accumulated(chain, actor, touched, effective) && Rebuilt(head, touched, effective, missing, files);
    AccumulatedIsKeyed(chain, actor, touched, effective);
    forall p
      ensures UndoneTo(chain, actor, p, LastAt(files, p))
      ensures NamedTwice(files, p) <==> StaysDoubled(chain, actor, p)
    {
      RebuiltAt(head, touched, effective, missing, files, p);
      assert FallsBackTo(chain, actor, |chain|, 0, p, Lookup(effective, p));
    }
    StrictIffDistinct(files);
    DistinctAt(files);
  }

  method RebuildHead(headFiles: seq<FileEntry>, touched: set<string>, pre: map<string, Option<FileEntry>>,
                     effective: map<string, FileEntry>)
    returns (files: seq<FileEntry>)
    requires forall p :: Resolve(effective, pre, p) == Lookup(effective, p)
    ensures files == Kept(headFiles, touched, effective)
  {
    files := [];
    for n := 0 to |headFiles|
      invariant files == Kept(headFiles[..n], touched, effective)
    {
      var f := headFiles[n];
      assert headFiles[..n + 1][..n] == headFiles[..n];
      if f.path in touched {
        var e := Resolve(effective, pre, f.path);
        if e.Some? {
          files := files + [e.value];
        }
      } else {
        files := files + [f];
      }
    }
    assert headFiles[..|headFiles|] == headFiles;
  }

  /** Touched paths that HEAD lacks come back when there is anything to come back to. */
  method RebuildMissing(headFiles: seq<FileEntry>, touched: set<string>,
                        pre: map<string, Option<FileEntry>>, effective: map<string, FileEntry>)
    returns (missing: seq<FileEntry>)
    requires KeyedByPath(effective)
    requires forall p :: Resolve(effective, pre, p) == Lookup(effective, p)
    ensures Missing(headFiles, touched, effective, missing)
  {
    missing := [];
    var headPaths := set f | f in headFiles :: f.path;
    var todo := touched;
    while todo != {}
      invariant todo <= touched
      invariant Missing(headFiles, touched - todo, effective, missing)
    {
      var p :| p in todo;
      if p !in headPaths {
        var e := Resolve(effective, pre, p);
        if e.Some? {
          missing := missing + [e.value];
        }
      }
      todo := todo - {p};
    }
    assert touched - todo == touched;
  }

  /** The virtual manifest's file list, rebuilt from HEAD and the accumulators. */
  method Rebuild(ghost chain: seq<Manifest>, ghost actor: string, head: Manifest, touched: set<string>,
                 pre: map<string, Option<FileEntry>>, effective: map<string, FileEntry>)
    returns (files: seq<FileEntry>)
    requires chain != [] && head == chain[|chain| - 1]
    requires Accumulated(chain, actor, touched, effective)
    requires forall p :: p in pre && pre[p].Some? ==> p in effective
    ensures UndoneList(chain, actor, files)
  {
    AccumulatedIsKeyed(chain, actor, touched, effective);
    var kept := RebuildHead(head.files, touched, pre, effective);
    var missing := RebuildMissing(head.files, touched, pre, effective);
    files := SortByPath(kept + missing);
    assert Rebuilt(HeadFiles(chain), touched, effective, missing, files);
  }
}
