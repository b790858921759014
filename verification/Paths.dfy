/** Manifest path strings and the component lists they denote on disk (`sanitize_rel`). */
module Paths {
  import opened Core

  /** A place in the worktree: the names from the root down. */
  type Comps = seq<string>

  const MAX_PATH := 1024
  const FABRIC_DIR := ".respawn"

  /** The pieces between separators, empty ones included. */
  function Split(p: string): (r: seq<string>)
    ensures r != []
  {
    if p == "" then [""]
    else
      var rest := Split(p[1..]);
      if p[0] == '/' then [""] + rest else [[p[0]] + rest[0]] + rest[1..]
  }

  function Join(c: Comps): string
    requires c != []
  {
    if |c| == 1 then c[0] else c[0] + "/" + Join(c[1..])
  }

  /** `Path::components` drops empty pieces and interior dots. */
  function Named(pieces: seq<string>): Comps {
    if pieces == [] then []
    else (if pieces[0] == "" || pieces[0] == "." then [] else [pieces[0]]) + Named(pieces[1..])
  }

  /** `sanitize_rel`: the components of a relative path whose components are all plain names. */
  function Sanitize(p: string): (r: Result<Comps>)
    ensures r.Ok? ==> r.value != []
  {
    var pieces := Split(p);
    if p == "" || |p| > MAX_PATH || '\0' in p || '\\' in p then Err(UnsafePath)
    else if p[0] == '/' then Err(UnsafePath)
    else if pieces[0] == "." || ".." in pieces then Err(UnsafePath)
    else
      assert pieces[0] != "";
      Ok(Named(pieces))
  }

  ghost predicate GoodName(s: string) {
    s != "" && s != "." && s != ".." && '/' !in s && '\\' !in s && '\0' !in s
  }

  ghost predicate GoodComps(c: Comps) {
    c != [] && forall s :: s in c ==> GoodName(s)
  }

  /** Snapshots, drift detection and the removal pass look away from such places. */
  ghost predicate Excluded(c: Comps) {
    ".respawn" in c || ".git" in c || ".DS_Store" in c
  }

  /** `excluded`. */
  predicate IsExcluded(c: Comps): (r: bool)
    ensures r <==> Excluded(c)
  {
    exists s :: s in c && (s == FABRIC_DIR || s == ".git" || s == ".DS_Store")
  }

  /** None of the three names is among the components. */
  ghost predicate KeptInView(c: Comps) {
    forall s :: s in c ==> s != ".respawn" && s != ".git" && s != ".DS_Store"
  }

  /** The place lies inside the fabric directory, among the store's own files. */
  ghost predicate InFabric(c: Comps) { c != [] && c[0] == ".respawn" }

  predicate ProperPrefix(a: Comps, b: Comps) { a < b }

  /** The system takes the string for a file: a name with "/" or "/." behind it can only be a directory,
      and looking it up, renaming to it or unlinking it fails where a file stands. */
  predicate EndsInName(p: string) {
    var pieces := Split(p);
    pieces[|pieces| - 1] != "" && pieces[|pieces| - 1] != "."
  }

  /** The path string is the one a directory walk prints for the place it denotes. */
  predicate Canonical(p: string) {
    Sanitize(p).Ok? && Join(Sanitize(p).value) == p
  }

  // ---------------------------------------------------------------------------------------------

  lemma {:induction false} SplitPiece(s: string, rest: string)
    requires '/' !in s
    ensures Split(s + "/" + rest) == [s] + Split(rest)
  {
    var p := s + "/" + rest;
    if s == "" {
      assert p[1..] == rest;
    } else {
      SplitPiece(s[1..], rest);
      assert p[1..] == s[1..] + "/" + rest;
      assert s == [s[0]] + s[1..];
    }
  }

  lemma {:induction false} SplitLast(s: string)
    requires '/' !in s
    ensures Split(s) == [s]
  {
    if s != "" {
      SplitLast(s[1..]);
      assert s == [s[0]] + s[1..];
    }
  }

  /** Joining a place and splitting the string again loses nothing. */
  lemma {:induction false} SplitJoin(c: Comps)
    requires GoodComps(c)
    ensures Split(Join(c)) == c && Named(c) == c
    ensures '\0' !in Join(c) && '\\' !in Join(c) && Join(c) != "" && Join(c)[0] != '/'
  {
    assert GoodName(c[0]);
    assert c == [c[0]] + c[1..];
    if |c| == 1 {
      SplitLast(c[0]);
    } else {
      SplitJoin(c[1..]);
      SplitPiece(c[0], Join(c[1..]));
    }
  }

  lemma JoinEndsInName(c: Comps)
    requires GoodComps(c)
    ensures EndsInName(Join(c))
  {
    SplitJoin(c);
    assert GoodName(c[|c| - 1]);
  }

  lemma CanonicalEndsInName(p: string)
    requires Canonical(p)
    ensures EndsInName(p)
  {
    SanitizeGood(p);
    JoinEndsInName(Sanitize(p).value);
  }

  lemma {:induction false} SplitAppend(p: string, last: string)
    requires '/' !in last
    ensures Split(p + ("/" + last)) == Split(p) + [last]
  {
    var whole := p + ("/" + last);
    if p == "" {
      SplitLast(last);
      assert whole[1..] == last;
    } else {
      SplitAppend(p[1..], last);
      assert whole[1..] == p[1..] + ("/" + last);
    }
  }

  lemma {:induction false} NamedAppend(pieces: seq<string>, last: string)
    requires last == "" || last == "."
    ensures Named(pieces + [last]) == Named(pieces)
  {
    if pieces == [] {
      assert [last][1..] == [];
    } else {
      NamedAppend(pieces[1..], last);
      assert (pieces + [last])[1..] == pieces[1..] + [last];
    }
  }

  /** A path string with "/" or "/." behind it denotes the same place, but no file. */
  lemma SlashedPath(c: Comps, last: string)
    requires GoodComps(c) && (last == "" || last == ".") && |Join(c)| + 1 + |last| <= MAX_PATH
    ensures Sanitize(Join(c) + ("/" + last)) == Ok(c) && !EndsInName(Join(c) + ("/" + last))
  {
    SplitJoin(c);
    SplitAppend(Join(c), last);
    NamedAppend(c, last);
    assert GoodName(c[0]);
  }

  lemma SanitizeJoin(c: Comps)
    requires GoodComps(c)
    ensures Sanitize(Join(c)) == if |Join(c)| <= MAX_PATH then Ok(c) else Err(UnsafePath)
  {
    SplitJoin(c);
    assert GoodName(c[0]);
  }

  lemma JoinInjective(c: Comps, d: Comps)
    requires GoodComps(c) && GoodComps(d) && Join(c) == Join(d)
    ensures c == d
  {
    SplitJoin(c);
    SplitJoin(d);
  }

  lemma {:induction false} SplitCharacters(p: string)
    ensures forall s :: s in Split(p) ==> '/' !in s && forall x :: x in s ==> x in p
  {
    if p != "" {
      SplitCharacters(p[1..]);
    }
  }

  /** Splitting is the one way to take a path apart at its separators. */
  lemma {:induction false} SplitMeans(p: string, pieces: seq<string>)
    ensures Split(p) == pieces <==> pieces != [] && (forall s :: s in pieces ==> '/' !in s) && Join(pieces) == p
  {
    SplitCharacters(p);
    SplitJoins(p);
    if pieces != [] && forall s :: s in pieces ==> '/' !in s {
      JoinSplits(pieces);
    }
  }

  lemma {:induction false} SplitJoins(p: string)
    ensures Join(Split(p)) == p
  {
    if p != "" {
      var rest := Split(p[1..]);
      SplitJoins(p[1..]);
      assert p == [p[0]] + p[1..];
      if p[0] == '/' {
        assert ([""] + rest)[1..] == rest;
        assert "" + "/" + p[1..] == "/" + p[1..];
      } else {
        JoinLonger(p[0], rest, [[p[0]] + rest[0]] + rest[1..]);
      }
    }
  }

  lemma JoinLonger(x: char, c: Comps, longer: Comps)
    requires c != [] && longer == [[x] + c[0]] + c[1..]
    ensures Join(longer) == [x] + Join(c)
  {
    if |c| > 1 {
      assert longer[1..] == c[1..];
      assert Join(c) == c[0] + ("/" + Join(c[1..]));
      assert Join(longer) == ([x] + c[0]) + ("/" + Join(c[1..]));
      ConcatAssociates([x], c[0], "/" + Join(c[1..]));
    }
  }

  lemma {:induction false} JoinSplits(pieces: seq<string>)
    requires pieces != [] && forall s :: s in pieces ==> '/' !in s
    ensures Split(Join(pieces)) == pieces
  {
    if |pieces| == 1 {
      SplitLast(pieces[0]);
    } else {
      JoinSplits(pieces[1..]);
      SplitPiece(pieces[0], Join(pieces[1..]));
      assert pieces == [pieces[0]] + pieces[1..];
    }
  }

  /** Exactly the relative paths of at most 1024 characters are accepted whose components, however many
      separators and interior dots stand between them, are plain names. */
  lemma SanitizeMeans(p: string, pieces: seq<string>)
    requires pieces != [] && (forall s :: s in pieces ==> '/' !in s) && Join(pieces) == p
    ensures Sanitize(p).Ok? <==>
              && p != "" && |p| <= 1024 && '\0' !in p && '\\' !in p
              && pieces[0] != "" && pieces[0] != "." && ".." !in pieces
    ensures Sanitize(p).Ok? ==> forall s :: s in Sanitize(p).value <==> s in pieces && s != "" && s != "."
  {
    SplitMeans(p, pieces);
    NamedIsSome(pieces);
  }

  lemma {:induction false} JoinLast(c: Comps, last: string) returns (front: string)
    requires c != [] && last == c[|c| - 1]
    ensures Join(c) == front + last && EndsSlashed(front)
  {
    if |c| == 1 {
      front := "";
    } else {
      var tail, head := c[1..], c[0] + "/";
      var rest := JoinLast(tail, last);
      front := head + rest;
      calc {
        Join(c);
        head + Join(tail);
        head + (rest + last);
        { ConcatAssociates(head, rest, last); }
        front + last;
      }
      SlashedBehind(c[0], rest);
    }
  }

  predicate EndsSlashed(front: string) { front == "" || front[|front| - 1] == '/' }

  lemma SlashedBehind(name: string, rest: string)
    requires EndsSlashed(rest)
    ensures EndsSlashed((name + "/") + rest)
  {
    if rest == "" {
      assert (name + "/") + rest == name + "/";
    }
  }

  /** A string that ends in a name is neither empty nor a dot, nor does it end in "/" or "/.". */
  lemma EndsInNameMeans(p: string)
    ensures EndsInName(p) <==>
              && p != "" && p != "." && p[|p| - 1] != '/'
              && !(|p| >= 2 && p[|p| - 2] == '/' && p[|p| - 1] == '.')
  {
    SplitMeans(p, Split(p));
    var last := Split(p)[|Split(p)| - 1];
    var front := JoinLast(Split(p), last);
    LastDecides(p, front, last);
  }

  lemma LastDecides(p: string, front: string, last: string)
    requires p == front + last && EndsSlashed(front) && '/' !in last
    ensures last != "" && last != "." <==>
              && p != "" && p != "." && p[|p| - 1] != '/'
              && !(|p| >= 2 && p[|p| - 2] == '/' && p[|p| - 1] == '.')
  {
    if |last| > 1 {
      assert p[|p| - 1] == last[|last| - 1] && p[|p| - 2] == last[|last| - 2];
    } else if |last| == 1 {
      assert p[|p| - 1] == last[0];
      assert last[0] == '.' ==> last == ".";
    }
  }

  lemma {:induction false} NamedIsSome(pieces: seq<string>)
    ensures forall s :: s in Named(pieces) <==> s in pieces && s != "" && s != "."
  {
    if pieces != [] {
      NamedIsSome(pieces[1..]);
    }
  }

  /** Every accepted path denotes a place made of plain names. */
  lemma SanitizeGood(p: string)
    requires Sanitize(p).Ok?
    ensures GoodComps(Sanitize(p).value)
  {
    SplitCharacters(p);
    NamedIsSome(Split(p));
  }
}
