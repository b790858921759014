/** Byte order on path strings, and sorting manifest entries by path. */
module Ordering {
  import opened Core

  /** Byte order, read off the strings: `a` is cut short or has the smaller character where they part. */
  ghost predicate InByteOrder(a: string, b: string) {
    a <= b || exists k: nat :: k < |a| && k < |b| && a[..k] == b[..k] && a[k] < b[k]
  }

  /** Lexicographic order, the order of Rust's `str`. */
  predicate Less(a: string, b: string)
    decreases |a|
  {
    b != [] && (a == [] || a[0] < b[0] || (a[0] == b[0] && Less(a[1..], b[1..])))
  }

  /** The recursive comparison finds the first difference, and the smaller character decides there. */
  lemma {:induction false} LessMeans(a: string, b: string)
    ensures Less(a, b) <==> a != b && InByteOrder(a, b)
  {
    if a != [] && b != [] && a[0] == b[0] {
      LessMeans(a[1..], b[1..]);
      OrderBehind(a, b);
    } else if a != [] && b != [] && a[0] < b[0] {
      assert a[..0] == b[..0];
    }
  }

  /** Behind an equal first character the order is that of the rest. */
  lemma OrderBehind(a: string, b: string)
    requires a != [] && b != [] && a[0] == b[0]
    ensures InByteOrder(a, b) <==> InByteOrder(a[1..], b[1..])
    ensures a == b <==> a[1..] == b[1..]
  {
    assert a == [a[0]] + a[1..] && b == [b[0]] + b[1..];
    if k: nat :| k < |a| && k < |b| && a[..k] == b[..k] && a[k] < b[k] {
      assert k > 0 && a[1..][..k - 1] == a[..k][1..] == b[..k][1..] == b[1..][..k - 1];
      assert a[1..][k - 1] < b[1..][k - 1];
    }
    if k: nat :| k < |a[1..]| && k < |b[1..]| && a[1..][..k] == b[1..][..k] && a[1..][k] < b[1..][k] {
      assert a[..k + 1] == [a[0]] + a[1..][..k] == [b[0]] + b[1..][..k] == b[..k + 1];
      assert a[k + 1] < b[k + 1];
    }
  }

  lemma {:induction false} LessIrreflexive(a: string)
    ensures !Less(a, a)
  {
    if a != [] {
      LessIrreflexive(a[1..]);
    }
  }

  lemma {:induction false} LessTotal(a: string, b: string)
    ensures Less(a, b) || Less(b, a) || a == b
    ensures !(Less(a, b) && Less(b, a))
  {
    if a != [] && b != [] {
      LessTotal(a[1..], b[1..]);
      assert a == [a[0]] + a[1..] && b == [b[0]] + b[1..];
    }
  }

  lemma {:induction false} LessTransitive(a: string, b: string, c: string)
    requires Less(a, b) && Less(b, c)
    ensures Less(a, c)
  {
    if a != [] && a[0] == b[0] == c[0] {
      LessTransitive(a[1..], b[1..], c[1..]);
    }
  }

  lemma InOrderIff(a: string, b: string)
    ensures InByteOrder(a, b) <==> !Less(b, a)
  {
    LessMeans(a, b);
    LessTotal(a, b);
    LessIrreflexive(a);
  }

  /** No entry is after one behind it. */
  ghost predicate Unbroken(s: seq<FileEntry>) {
    forall i, j :: 0 <= i < j < |s| ==> !Less(s[j].path, s[i].path)
  }

  ghost predicate SortedByPath(s: seq<FileEntry>) {
    forall i, j :: 0 <= i < j < |s| ==> InByteOrder(s[i].path, s[j].path)
  }

  ghost predicate StrictlySorted(s: seq<FileEntry>) {
    forall i, j :: 0 <= i < j < |s| ==> s[i].path != s[j].path && InByteOrder(s[i].path, s[j].path)
  }

  lemma SortedMeans(s: seq<FileEntry>)
    ensures SortedByPath(s) <==> Unbroken(s)
  {
    forall i, j | 0 <= i < j < |s| ensures InByteOrder(s[i].path, s[j].path) <==> !Less(s[j].path, s[i].path) {
      InOrderIff(s[i].path, s[j].path);
    }
  }

  /** Insert `e` behind every entry that is not after it: the step of a stable sort. */
  function Insert(s: seq<FileEntry>, e: FileEntry): seq<FileEntry> {
    if s == [] || !Less(e.path, s[|s| - 1].path) then s + [e]
    else Insert(s[..|s| - 1], e) + [s[|s| - 1]]
  }

  lemma {:induction false} InsertAdds(s: seq<FileEntry>, e: FileEntry)
    ensures multiset(Insert(s, e)) == multiset(s) + multiset{e}
  {
    if s != [] && Less(e.path, s[|s| - 1].path) {
      InsertAdds(s[..|s| - 1], e);
      assert s == s[..|s| - 1] + [s[|s| - 1]];
    }
  }

  lemma AppendSorted(s: seq<FileEntry>, e: FileEntry)
    requires Unbroken(s)
    requires s == [] || !Less(e.path, s[|s| - 1].path)
    ensures Unbroken(s + [e])
  {
    forall i | 0 <= i < |s| ensures !Less(e.path, s[i].path) {
      if Less(e.path, s[i].path) {
        LessTotal(s[i].path, s[|s| - 1].path);
        if Less(s[i].path, s[|s| - 1].path) { LessTransitive(e.path, s[i].path, s[|s| - 1].path); }
      }
    }
  }

  lemma {:induction false} InsertSorted(s: seq<FileEntry>, e: FileEntry)
    requires Unbroken(s)
    ensures Unbroken(Insert(s, e))
  {
    if s == [] || !Less(e.path, s[|s| - 1].path) {
      AppendSorted(s, e);
    } else {
      var init, last := s[..|s| - 1], s[|s| - 1];
      InsertSorted(init, e);
      var r := Insert(init, e);
      InsertAdds(init, e);
      assert r[|r| - 1] in multiset(r);
      LessTotal(e.path, last.path);
      AppendSorted(r, last);
    }
  }

  lemma LastAtAppend(s: seq<FileEntry>, e: FileEntry, p: string)
    ensures LastAt(s + [e], p) == if p == e.path then Some(e) else LastAt(s, p)
  {
    assert (s + [e])[..|s|] == s;
  }

  lemma {:induction false} InsertLastAt(s: seq<FileEntry>, e: FileEntry, p: string)
    requires Unbroken(s)
    ensures LastAt(Insert(s, e), p) == if p == e.path then Some(e) else LastAt(s, p)
  {
    if s == [] || !Less(e.path, s[|s| - 1].path) {
      LastAtAppend(s, e, p);
    } else {
      var init, last := s[..|s| - 1], s[|s| - 1];
      InsertLastAt(init, e, p);
      LastAtAppend(Insert(init, e), last, p);
      LessIrreflexive(p);
    }
  }

  /** `sort_by` on the path: a stable sort, so the last entry of each path stays the last one. */
  function SortByPath(files: seq<FileEntry>): (r: seq<FileEntry>)
    ensures SortedByPath(r)
    ensures multiset(r) == multiset(files)
  {
    if files == [] then []
    else
      var init, last := files[..|files| - 1], files[|files| - 1];
      var s := SortByPath(init);
      SortedMeans(s);
      InsertSorted(s, last);
      SortedMeans(Insert(s, last));
      InsertAdds(s, last);
      assert files == init + [last];
      Insert(s, last)
  }

  lemma {:induction false} SortLastAt(files: seq<FileEntry>, p: string)
    ensures LastAt(SortByPath(files), p) == LastAt(files, p)
  {
    if files != [] {
      SortLastAt(files[..|files| - 1], p);
      SortedMeans(SortByPath(files[..|files| - 1]));
      InsertLastAt(SortByPath(files[..|files| - 1]), files[|files| - 1], p);
    }
  }

  // ---------------------------------------------------------------------------------------------
  // The entries of one path
  // ---------------------------------------------------------------------------------------------

  function EntriesAt(s: seq<FileEntry>, p: string): (r: seq<FileEntry>)
    ensures forall e :: e in r <==> e in s && e.path == p
  {
    if s == [] then []
    else
      var init, last := s[..|s| - 1], s[|s| - 1];
      assert s == init + [last];
      EntriesAt(init, p) + if last.path == p then [last] else []
  }

  /** Some path is named more than once. */
  ghost predicate NamedTwice(s: seq<FileEntry>, p: string) { |EntriesAt(s, p)| > 1 }

  lemma EntriesAtAppend(s: seq<FileEntry>, e: FileEntry, p: string)
    ensures EntriesAt(s + [e], p) == EntriesAt(s, p) + if e.path == p then [e] else []
  {
    assert (s + [e])[..|s|] == s;
  }

  lemma {:induction false} EntriesAtConcat(s: seq<FileEntry>, t: seq<FileEntry>, p: string)
    ensures EntriesAt(s + t, p) == EntriesAt(s, p) + EntriesAt(t, p)
  {
    if t == [] {
      assert s + t == s;
    } else {
      var init, last := t[..|t| - 1], t[|t| - 1];
      assert s + t == (s + init) + [last];
      EntriesAtAppend(s + init, last, p);
      EntriesAtConcat(s, init, p);
    }
  }

  lemma {:induction false} InsertEntriesAt(s: seq<FileEntry>, e: FileEntry, p: string)
    ensures EntriesAt(Insert(s, e), p) == EntriesAt(s, p) + if e.path == p then [e] else []
  {
    if s == [] || !Less(e.path, s[|s| - 1].path) {
      EntriesAtAppend(s, e, p);
    } else {
      var init, last := s[..|s| - 1], s[|s| - 1];
      InsertEntriesAt(init, e, p);
      EntriesAtAppend(Insert(init, e), last, p);
      LessIrreflexive(p);
    }
  }

  /** Sorting is stable: the entries of each path keep their order. */
  lemma {:induction false} SortEntriesAt(files: seq<FileEntry>, p: string)
    ensures EntriesAt(SortByPath(files), p) == EntriesAt(files, p)
  {
    if files != [] {
      SortEntriesAt(files[..|files| - 1], p);
      InsertEntriesAt(SortByPath(files[..|files| - 1]), files[|files| - 1], p);
    }
  }

  lemma {:induction false} NoneAt(s: seq<FileEntry>, p: string)
    requires forall e :: e in s ==> e.path != p
    ensures EntriesAt(s, p) == []
  {
    if s != [] {
      NoneAt(s[..|s| - 1], p);
    }
  }

  lemma EmptyAt(s: seq<FileEntry>)
    requires forall p :: EntriesAt(s, p) == []
    ensures s == []
  {
    assert s != [] ==> s[0] in EntriesAt(s, s[0].path);
  }

  lemma {:induction false} DistinctAt(s: seq<FileEntry>)
    ensures DistinctPaths(s) <==> forall p :: !NamedTwice(s, p)
  {
    if s != [] {
      var init, last := s[..|s| - 1], s[|s| - 1];
      DistinctAt(init);
      assert s == init + [last];
      if DistinctPaths(s) {
        forall p ensures !NamedTwice(s, p) {
          assert !NamedTwice(init, p);
          if last.path == p { NoneAt(init, p); }
        }
      } else if DistinctPaths(init) {
        var i :| 0 <= i < |init| && init[i].path == last.path;
        assert init[i] in EntriesAt(init, last.path);
        assert NamedTwice(s, last.path);
      } else {
        var p :| NamedTwice(init, p);
        assert NamedTwice(s, p);
      }
    }
  }

  /** A sorted list is determined by the entries of each path. */
  lemma SortedUnique(s: seq<FileEntry>, t: seq<FileEntry>)
    requires SortedByPath(s) && SortedByPath(t)
    requires forall p :: EntriesAt(s, p) == EntriesAt(t, p)
    ensures s == t
  {
    SortedMeans(s);
    SortedMeans(t);
    UnbrokenUnique(s, t);
  }

  lemma {:induction false} UnbrokenUnique(s: seq<FileEntry>, t: seq<FileEntry>)
    requires Unbroken(s) && Unbroken(t)
    requires forall p :: EntriesAt(s, p) == EntriesAt(t, p)
    ensures s == t
  {
    if s == [] {
      EmptyAt(t);
    } else if t == [] {
      EmptyAt(s);
    } else {
      var s', t', a := s[..|s| - 1], t[..|t| - 1], s[|s| - 1];
      SameLast(s, t);
      assert s == s' + [a] && t == t' + [a];
      forall p ensures EntriesAt(s', p) == EntriesAt(t', p) {
        SameInit(s', t', a, p);
      }
      UnbrokenUnique(s', t');
    }
  }

  lemma SameInit(s: seq<FileEntry>, t: seq<FileEntry>, a: FileEntry, p: string)
    requires EntriesAt(s + [a], p) == EntriesAt(t + [a], p)
    ensures EntriesAt(s, p) == EntriesAt(t, p)
  {
    EntriesAtAppend(s, a, p);
    EntriesAtAppend(t, a, p);
    DropSame(EntriesAt(s, p), EntriesAt(t, p), if a.path == p then [a] else []);
  }

  lemma DropSame<T>(u: seq<T>, v: seq<T>, w: seq<T>)
    requires u + w == v + w
    ensures u == v
  {
    assert |u| == |v|;
    assert (u + w)[..|u|] == u && (v + w)[..|v|] == v;
  }

  lemma SameLast(s: seq<FileEntry>, t: seq<FileEntry>)
    requires Unbroken(s) && Unbroken(t) && s != [] && t != []
    requires forall p :: EntriesAt(s, p) == EntriesAt(t, p)
    ensures s[|s| - 1] == t[|t| - 1]
  {
    var a, b := s[|s| - 1], t[|t| - 1];
    assert a in EntriesAt(s, a.path) && b in EntriesAt(t, b.path);
    assert a in t && b in s;
    LessTotal(a.path, b.path);
    LessIrreflexive(a.path);
    var u, v := EntriesAt(s, a.path), EntriesAt(t, a.path);
    assert u[|u| - 1] == a && v[|v| - 1] == b;
  }

  lemma StrictIffDistinct(s: seq<FileEntry>)
    requires SortedByPath(s)
    ensures StrictlySorted(s) <==> DistinctPaths(s)
  {
  }

  // ---------------------------------------------------------------------------------------------
  // Sets of paths in ascending order
  // ---------------------------------------------------------------------------------------------

  ghost predicate Ascending(ps: seq<string>) {
    forall i, j :: 0 <= i < j < |ps| ==> ps[i] != ps[j] && InByteOrder(ps[i], ps[j])
  }

  ghost predicate Rising(ps: seq<string>) {
    forall i, j :: 0 <= i < j < |ps| ==> Less(ps[i], ps[j])
  }

  lemma AscendingMeans(ps: seq<string>)
    ensures Ascending(ps) <==> Rising(ps)
  {
    forall i, j | 0 <= i < j < |ps| ensures ps[i] != ps[j] && InByteOrder(ps[i], ps[j]) <==> Less(ps[i], ps[j]) {
      LessMeans(ps[i], ps[j]);
    }
  }

  function InsertPath(ps: seq<string>, p: string): seq<string> {
    if ps == [] || Less(ps[|ps| - 1], p) then ps + [p]
    else InsertPath(ps[..|ps| - 1], p) + [ps[|ps| - 1]]
  }

  lemma {:induction false} InsertPathRises(ps: seq<string>, p: string)
    requires Rising(ps) && p !in ps
    ensures Rising(InsertPath(ps, p))
    ensures forall q :: q in InsertPath(ps, p) <==> q in ps || q == p
  {
    if ps != [] {
      var init, last := ps[..|ps| - 1], ps[|ps| - 1];
      assert ps == init + [last];
      if Less(last, p) {
        forall i | 0 <= i < |init| ensures Less(ps[i], p) { LessTransitive(ps[i], last, p); }
      } else {
        InsertPathRises(init, p);
        LessTotal(last, p);
        var r := InsertPath(init, p);
        forall i | 0 <= i < |r| ensures Less(r[i], last) {
          assert r[i] in r;
          if r[i] != p {
            var k :| 0 <= k < |init| && init[k] == r[i];
            assert Less(ps[k], ps[|init|]);
          }
        }
      }
    }
  }

  /** What iterating over an ordered set of paths visits. */
  method InOrder(s: set<string>) returns (ps: seq<string>)
    ensures Ascending(ps) && forall p :: p in ps <==> p in s
  {
    ps := [];
    var todo := s;
    while todo != {}
      invariant todo <= s && Rising(ps)
      invariant forall p :: p in ps <==> p in s && p !in todo
    {
      var p :| p in todo;
      InsertPathRises(ps, p);
      ps := InsertPath(ps, p);
      todo := todo - {p};
    }
    AscendingMeans(ps);
  }
}
