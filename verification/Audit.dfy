/** The hash-chained audit log (`audit.rs`). */
module Audit {
  import opened Core

  /** What an entry's hash covers. */
  datatype Body = Body(seqNo: nat, ts: nat, event: string, detail: string, prev: string)

  datatype Entry = Entry(body: Body, hash: string)

  /** One line of the log file. */
  datatype Line = Blank | Garbage | Parsed(entry: Entry)

  /** JSON of a body, and hex of a hash. */
  const SerializeBody: Body -> Bytes
  const Hex: Hash -> string

  function EntryHash(b: Body): string {
    Hex(HashBytes(SerializeBody(b)))
  }

  /** Neither the encodings nor the hash confuse two inputs. */
  ghost predicate Binding() {
    && CollisionFree()
    && (forall b: Body, b': Body :: SerializeBody(b) == SerializeBody(b') ==> b == b')
    && (forall h: Hash, h': Hash :: Hex(h) == Hex(h') ==> h == h')
  }

  lemma EntryHashInjective(b: Body, b': Body)
    requires Binding() && EntryHash(b) == EntryHash(b')
    ensures b == b'
  {
  }

  // ---------------------------------------------------------------------------------------------
  // Reading the log
  // ---------------------------------------------------------------------------------------------

  /** The lines that are not blank. */
  function Solid(lines: seq<Line>): seq<Line> {
    if lines == [] then []
    else Solid(lines[..|lines| - 1]) + if lines[|lines| - 1].Blank? then [] else [lines[|lines| - 1]]
  }

  lemma {:induction false} SolidGrows(lines: seq<Line>, n: nat)
    requires n <= |lines|
    ensures Solid(lines[..n]) <= Solid(lines)
  {
    if n < |lines| {
      SolidGrows(lines[..|lines| - 1], n);
      assert lines[..|lines| - 1][..n] == lines[..n];
    } else {
      assert lines[..n] == lines;
    }
  }

  lemma SolidStep(lines: seq<Line>, n: nat)
    requires n < |lines|
    ensures Solid(lines[..n + 1]) == if lines[n].Blank? then Solid(lines[..n]) else Solid(lines[..n]) + [lines[n]]
    ensures Solid(lines[..n + 1]) <= Solid(lines)
  {
    assert lines[..n + 1][..n] == lines[..n];
    SolidGrows(lines, n + 1);
  }

  /** The hash that the entry after `solid` must carry as its predecessor's. */
  function LinkOf(solid: seq<Line>): string {
    if solid == [] || !solid[|solid| - 1].Parsed? then "" else solid[|solid| - 1].entry.hash
  }

  /** `l` is the entry number `n`, follows `prev`, and has its own hash. */
  predicate Fits(l: Line, n: nat, prev: string) {
    && l.Parsed?
    && l.entry.body.seqNo == n && l.entry.body.prev == prev
    && l.entry.hash == EntryHash(l.entry.body)
  }

  /** Every line is an entry that fits the ones before it. */
  predicate Chained(solid: seq<Line>) {
    solid == [] ||
    var init := solid[..|solid| - 1];
    Chained(init) && Fits(solid[|solid| - 1], |init|, LinkOf(init))
  }

  lemma {:induction false} ChainedPrefix(solid: seq<Line>, n: nat)
    requires n <= |solid| && Chained(solid)
    ensures Chained(solid[..n])
  {
    if n < |solid| {
      ChainedPrefix(solid[..|solid| - 1], n);
      assert solid[..|solid| - 1][..n] == solid[..n];
    } else {
      assert solid[..n] == solid;
    }
  }

  lemma ChainedStep(solid: seq<Line>, l: Line)
    ensures Chained(solid + [l]) <==> Chained(solid) && Fits(l, |solid|, LinkOf(solid))
  {
    assert (solid + [l])[..|solid|] == solid;
  }

  /** The file holds a valid chain and nothing else but blank lines. */
  predicate ValidLog(lines: seq<Line>) { Chained(Solid(lines)) }

  /** The first `len` entries of the file are a valid chain that ends in `tip`. */
  predicate Covers(lines: seq<Line>, len: nat, tip: string) {
    && len <= |Solid(lines)|
    && Chained(Solid(lines)[..len])
    && LinkOf(Solid(lines)[..len]) == tip
  }

  /** An anchor with this content verifies against the log `lines`. */
  ghost predicate Accepts(lines: seq<Line>, len: nat, tip: string) { len == 0 || Covers(lines, len, tip) }

  /** Number and predecessor hash for the next entry, by the last line that parses. */
  function NextLink(lines: seq<Line>): (nat, string) {
    if lines == [] then (0, "")
    else
      match lines[|lines| - 1]
      case Parsed(e) => (e.body.seqNo + 1, e.hash)
      case _ => NextLink(lines[..|lines| - 1])
  }

  /** On a valid log the next entry's number is the number of entries. */
  lemma {:induction false} NextLinkOfValid(lines: seq<Line>)
    requires ValidLog(lines)
    ensures NextLink(lines) == (|Solid(lines)|, LinkOf(Solid(lines)))
  {
    if lines != [] {
      var init, last := lines[..|lines| - 1], lines[|lines| - 1];
      if last.Blank? {
        assert Solid(lines) == Solid(init);
        NextLinkOfValid(init);
      } else {
        ChainedStep(Solid(init), last);
      }
    }
  }

  lemma RecordedLine(lines: seq<Line>, l: Line)
    requires l.Parsed? && l.entry.hash == EntryHash(l.entry.body)
    requires (l.entry.body.seqNo, l.entry.body.prev) == NextLink(lines)
    ensures ValidLog(lines + [l]) <==> ValidLog(lines)
    ensures Solid(lines + [l]) == Solid(lines) + [l]
  {
    assert (lines + [l])[..|lines|] == lines;
    ChainedStep(Solid(lines), l);
    if ValidLog(lines) {
      NextLinkOfValid(lines);
    }
  }

  /** Two texts on one line: only white space before an entry leaves it readable. */
  ghost function Joined(last: Line, l: Line): Line {
    if last.Blank? then l else Garbage
  }

  /** What the file reads as after `l` was written behind `lines`, whose last line may lack its newline. */
  ghost function Appended(lines: seq<Line>, ended: bool, l: Line): seq<Line> {
    if ended || lines == [] then lines + [l]
    else lines[..|lines| - 1] + [Joined(lines[|lines| - 1], l)]
  }

  /** Nothing stands on the line the next entry goes to. */
  ghost predicate FreshLine(lines: seq<Line>, ended: bool) {
    ended || lines == [] || lines[|lines| - 1].Blank?
  }

  lemma AppendedLog(lines: seq<Line>, ended: bool, l: Line)
    requires l.Parsed? && l.entry.hash == EntryHash(l.entry.body)
    requires (l.entry.body.seqNo, l.entry.body.prev) == NextLink(lines)
    ensures ValidLog(Appended(lines, ended, l)) <==> ValidLog(lines) && FreshLine(lines, ended)
    ensures FreshLine(lines, ended) ==> Solid(Appended(lines, ended, l)) == Solid(lines) + [l]
  {
    if ended || lines == [] {
      RecordedLine(lines, l);
    } else {
      var init, last := lines[..|lines| - 1], lines[|lines| - 1];
      if last.Blank? {
        BlankLast(lines);
        RecordedLine(init, l);
      } else {
        GarbageLast(init);
      }
    }
  }

  lemma BlankLast(lines: seq<Line>)
    requires lines != [] && lines[|lines| - 1].Blank?
    ensures Solid(lines) == Solid(lines[..|lines| - 1]) && NextLink(lines) == NextLink(lines[..|lines| - 1])
  {
  }

  lemma GarbageLast(init: seq<Line>)
    ensures !ValidLog(init + [Garbage])
  {
    assert (init + [Garbage])[..|init|] == init;
    ChainedStep(Solid(init), Garbage);
  }

  /** An entry whose newline never made it to the disk still reads well, until the next entry comes: the two
      share a line then, and both are lost. */
  lemma CutRecordSpoilsTheNext(lines: seq<Line>, l: Line, next: Line)
    requires l.Parsed? && l.entry.hash == EntryHash(l.entry.body)
    requires (l.entry.body.seqNo, l.entry.body.prev) == NextLink(lines)
    ensures var once := Appended(lines, true, l);
      && (ValidLog(once) <==> ValidLog(lines))
      && Appended(once, false, next) == lines + [Garbage] && !ValidLog(lines + [Garbage])
  {
    AppendedLog(lines, true, l);
    assert (lines + [l])[..|lines|] == lines;
    GarbageLast(lines);
  }

  /** The number that line `k` carries, if it is an entry. */
  function SeqAt(solid: seq<Line>, k: nat): Option<nat> {
    if k < |solid| && solid[k].Parsed? then Some(solid[k].entry.body.seqNo) else None
  }

  datatype VerifyReport = VerifyReport(entries: nat, valid: bool, firstBad: Option<nat>)

  class AuditLog {
    var lines: seq<Line>
    var ended: bool

    constructor ()
      ensures lines == [] && ended
    {
      lines, ended := [], true;
    }

    /** Append an event behind the last line that parses.  The entry and its newline are two writes; with
        `cut` only the first one happens. */
    method Record(ts: nat, event: string, detail: string, cut: bool) returns (ghost l: Line)
      modifies this
      ensures lines == Appended(old(lines), old(ended), l) && ended == !cut
      ensures l.Parsed? && l.entry.body.ts == ts && l.entry.body.event == event && l.entry.body.detail == detail
      ensures (l.entry.body.seqNo, l.entry.body.prev) == NextLink(old(lines))
      ensures l.entry.hash == Hex(HashBytes(SerializeBody(l.entry.body)))
      ensures ValidLog(lines) <==> old(ValidLog(lines)) && FreshLine(old(lines), old(ended))
    {
      var seqNo: nat, prev := 0, "";
      for n := 0 to |lines|
        invariant (seqNo, prev) == NextLink(lines[..n]) && lines == old(lines) && ended == old(ended)
      {
        assert lines[..n + 1][..n] == lines[..n];
        if lines[n].Parsed? {
          seqNo, prev := lines[n].entry.body.seqNo + 1, lines[n].entry.hash;
        }
      }
      assert lines[..|lines|] == lines;
      var body := Body(seqNo, ts, event, detail, prev);
      var line := Parsed(Entry(body, EntryHash(body)));
      AppendedLog(lines, ended, line);
      l := line;
      if ended || lines == [] {
        lines := lines + [line];
      } else if lines[|lines| - 1].Blank? {
        lines := lines[..|lines| - 1] + [line];
      } else {
        lines := lines[..|lines| - 1] + [Garbage];
      }
      ended := !cut;
    }

    /** Recompute the chain from the first line. */
    method Verify() returns (r: Result<VerifyReport>)
      ensures ValidLog(lines) <==> r.Ok? && r.value.valid
      ensures r.Ok? && r.value.valid ==> r.value.entries == |Solid(lines)|
      ensures r.Ok? && !r.value.valid ==>
                && r.value.entries < |Solid(lines)| && Chained(Solid(lines)[..r.value.entries])
                && !Chained(Solid(lines)[..r.value.entries + 1])
                && r.value.firstBad == SeqAt(Solid(lines), r.value.entries)
    {
      var prev, entries: nat := "", 0;
      for n := 0 to |lines|
        invariant ReadSoFar(lines, n, entries, prev)
      {
        ReadStep(lines, n, entries, prev);
        if !lines[n].Blank? {
          if lines[n].Garbage? {
            MisfitBreaks(lines, entries);
            return Err(Corrupt);
          }
          var e := lines[n].entry;
          if e.body.seqNo != entries || e.body.prev != prev || e.hash != EntryHash(e.body.(prev := prev)) {
            MisfitBreaks(lines, entries);
            return Ok(VerifyReport(entries, false, Some(e.body.seqNo)));
          }
          assert e.body.(prev := prev) == e.body;
          prev := e.hash;
          entries := entries + 1;
        }
      }
      assert lines[..|lines|] == lines;
      return Ok(VerifyReport(entries, true, None));
    }

    /** The state an anchor records.  Every line must parse; the chain is not checked. */
    method Tip() returns (r: Result<(nat, string)>)
      ensures r == if Garbage in lines then Err(Corrupt) else Ok(NextLink(lines))
    {
      var entries: nat, tip := 0, "";
      for n := 0 to |lines|
        invariant Garbage !in lines[..n] && (entries, tip) == NextLink(lines[..n])
      {
        assert lines[..n + 1][..n] == lines[..n];
        if lines[n].Garbage? {
          return Err(Corrupt);
        }
        if lines[n].Parsed? {
          entries, tip := lines[n].entry.body.seqNo + 1, lines[n].entry.hash;
        }
      }
      assert lines[..|lines|] == lines;
      return Ok((entries, tip));
    }

    /** Does the log still begin with what an anchor recorded?  Lines behind the first `len` entries
        are not even parsed. */
    method TipIsPrefix(len: nat, tip: string) returns (r: Result<()>)
      ensures r.Ok? <==> Accepts(lines, len, tip)
    {
      if len == 0 {
        return Ok(());
      }
      var prev, seqNo: nat, n := "", 0, 0;
      while n < |lines|
        invariant seqNo <= len && ReadSoFar(lines, n, seqNo, prev)
      {
        ReadStep(lines, n, seqNo, prev);
        if !lines[n].Blank? {
          if seqNo >= len {
            break;
          }
          if lines[n].Garbage? {
            MisfitUncovers(lines, seqNo, len, tip);
            return Err(Corrupt);
          }
          var e := lines[n].entry;
          if e.body.seqNo != seqNo || e.body.prev != prev || e.hash != EntryHash(e.body.(prev := prev)) {
            MisfitUncovers(lines, seqNo, len, tip);
            return Err(Corrupt);
          }
          assert e.body.(prev := prev) == e.body;
          assert Fits(lines[n], seqNo, prev);
          seqNo, prev := seqNo + 1, e.hash;
        }
        n := n + 1;
      }
      ReadEnd(lines, n, seqNo, prev);
      if seqNo < len {
        return Err(Corrupt);
      }
      return if prev != tip then Err(Corrupt) else Ok(());
    }
  }

  /** The first `n` lines hold `k` chained entries, the last of which has hash `prev`. */
  ghost predicate ReadSoFar(lines: seq<Line>, n: nat, k: nat, prev: string) {
    n <= |lines| && Chained(Solid(lines[..n])) && k == |Solid(lines[..n])| && prev == LinkOf(Solid(lines[..n]))
  }

  lemma ReadStep(lines: seq<Line>, n: nat, k: nat, prev: string)
    requires n < |lines| && ReadSoFar(lines, n, k, prev)
    ensures lines[n].Blank? ==> ReadSoFar(lines, n + 1, k, prev)
    ensures !lines[n].Blank? ==> k < |Solid(lines)| && Chained(Solid(lines)[..k]) && Solid(lines)[k] == lines[n]
    ensures !lines[n].Blank? && Fits(lines[n], k, prev) ==> ReadSoFar(lines, n + 1, k + 1, lines[n].entry.hash)
    ensures !lines[n].Blank? && !Fits(lines[n], k, prev) ==> !Chained(Solid(lines)[..k + 1])
  {
    var solid := Solid(lines[..n]);
    SolidStep(lines, n);
    if !lines[n].Blank? {
      ChainedStep(solid, lines[n]);
      assert Solid(lines)[..k + 1] == solid + [lines[n]] && Solid(lines)[..k] == solid;
    }
  }

  lemma ReadEnd(lines: seq<Line>, n: nat, k: nat, prev: string)
    requires ReadSoFar(lines, n, k, prev)
    ensures n == |lines| ==> |Solid(lines)| == k
    ensures k <= |Solid(lines)| && Chained(Solid(lines)[..k]) && LinkOf(Solid(lines)[..k]) == prev
  {
    SolidGrows(lines, n);
    assert Solid(lines)[..k] == Solid(lines[..n]);
    assert lines[..|lines|] == lines;
  }

  lemma MisfitBreaks(lines: seq<Line>, k: nat)
    requires k < |Solid(lines)| && !Chained(Solid(lines)[..k + 1])
    ensures !ValidLog(lines)
  {
    if ValidLog(lines) {
      ChainedPrefix(Solid(lines), k + 1);
    }
  }

  lemma MisfitUncovers(lines: seq<Line>, k: nat, len: nat, tip: string)
    requires k < |Solid(lines)| && k < len && !Chained(Solid(lines)[..k + 1])
    ensures !Covers(lines, len, tip)
  {
    if len <= |Solid(lines)| {
      assert Solid(lines)[..len][..k + 1] == Solid(lines)[..k + 1];
      if Chained(Solid(lines)[..len]) {
        ChainedPrefix(Solid(lines)[..len], k + 1);
      }
    }
  }
}
