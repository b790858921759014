/** Signed checkpoints of the audit log (`anchor.rs`).  Signatures and codecs are uninterpreted. */
module Anchor {
  import opened Core
  import opened Audit

  const ANCHOR_VERSION := 1
  const MAX_ANCHOR_BYTES := 4 * 1024 * 1024

  datatype Payload = Payload(
    kind: string,
    version: nat,
    fabricId: string,
    auditLen: nat,
    auditTip: string,
    head: Option<string>,
    prevAnchor: Option<string>,
    ts: nat)

  datatype AnchorFile = AnchorFile(format: string, pubkey: string, payload: string, sig: string)

  const SerializePayload: Payload -> string
  const ParsePayload: string -> Option<Payload>
  const SerializeFile: AnchorFile -> Bytes
  const ParseFile: Bytes -> Option<AnchorFile>

  /** A signing key, its public half in hex, signing, and verifying a hex signature. */
  type Key(==, 0, !new)
  const PublicHex: Key -> string
  const Sign: (Key, string) -> string
  const Verifies: (string, string, string) -> bool

  ghost predicate Encodings() {
    && (forall p: Payload :: ParsePayload(SerializePayload(p)) == Some(p))
    && (forall f: AnchorFile :: ParseFile(SerializeFile(f)) == Some(f))
    && (forall k: Key, m: string :: Verifies(PublicHex(k), m, Sign(k, m)))
  }

  function FileHash(bytes: Bytes): string {
    Hex(HashBytes(bytes))
  }

  function LowerChar(c: char): char {
    if 'A' <= c <= 'Z' then c - 'A' + 'a' else c
  }

  function Lower(s: string): string {
    seq(|s|, i requires 0 <= i < |s| => LowerChar(s[i]))
  }

  /** The strings differ at most in the case of ASCII letters. */
  ghost predicate SameLetters(a: string, b: string) {
    |a| == |b| && forall i :: 0 <= i < |a| ==> a[i] == b[i] || UpperOf(a[i], b[i]) || UpperOf(b[i], a[i])
  }

  /** `u` is an ASCII capital and `l` its small letter. */
  ghost predicate UpperOf(u: char, l: char) { 'A' <= u <= 'Z' && l as int == u as int + 32 }

  lemma LowerMeans(a: string, b: string)
    ensures Lower(a) == Lower(b) <==> SameLetters(a, b)
  {
    if Lower(a) == Lower(b) {
      forall i | 0 <= i < |a| ensures |a| == |b| && (a[i] == b[i] || UpperOf(a[i], b[i]) || UpperOf(b[i], a[i])) {
        assert |Lower(a)| == |Lower(b)| && Lower(a)[i] == Lower(b)[i];
      }
    }
    if SameLetters(a, b) {
      forall i | 0 <= i < |a| ensures LowerChar(a[i]) == LowerChar(b[i]) {
      }
    }
  }

  /** Within 4 MiB, readable, signed by the key it names, and an anchor of the known kind and version. */
  ghost predicate Genuine(bytes: Bytes) {
    && |bytes| <= 4_194_304
    && match ParseFile(bytes)
       case None => false
       case Some(file) =>
         && file.format == "respawn-anchor/v1" && Verifies(file.pubkey, file.payload, file.sig)
         && match ParsePayload(file.payload)
            case None => false
            case Some(payload) => payload.kind == "respawn-anchor" && payload.version == 1
  }

  ghost function SignedPayload(bytes: Bytes): Payload
    requires Genuine(bytes)
  {
    ParsePayload(ParseFile(bytes).value.payload).value
  }

  /** `checked_anchor`: parse, check the format, verify the signature, then look at the payload. */
  function CheckedAnchor(bytes: Bytes): Result<(AnchorFile, Payload)> {
    match ParseFile(bytes)
    case None => Err(Corrupt)
    case Some(file) =>
      if file.format != "respawn-anchor/v1" then Err(Corrupt)
      else if !Verifies(file.pubkey, file.payload, file.sig) then Err(Corrupt)
      else
        match ParsePayload(file.payload)
        case None => Err(Corrupt)
        case Some(payload) =>
          if payload.kind != "respawn-anchor" || payload.version != ANCHOR_VERSION then Err(Corrupt)
          else Ok((file, payload))
  }

  function ReadAnchor(bytes: Bytes): (r: Result<(AnchorFile, Payload)>)
    ensures r.Ok? <==> Genuine(bytes)
    ensures r.Ok? ==> r.value == (ParseFile(bytes).value, SignedPayload(bytes))
  {
    if |bytes| > MAX_ANCHOR_BYTES then Err(Corrupt) else CheckedAnchor(bytes)
  }

  datatype VerifyOutcome = VerifyOutcome(
    signer: string,
    auditLen: nat,
    anchoredHead: Option<string>,
    currentHead: Option<string>,
    fileHash: string,
    prevAnchor: Option<string>)

  /** `verify_link`: `cur` is a signed anchor that names the exact bytes of the signed anchor `prev`. */
  function VerifyLink(cur: Bytes, prev: Bytes): (r: Result<()>)
    ensures r.Ok? <==> Genuine(prev) && Genuine(cur) && SignedPayload(cur).prevAnchor == Some(Hex(HashBytes(prev)))
  {
    var before :- ReadAnchor(prev);
    var after :- ReadAnchor(cur);
    if after.1.prevAnchor == Some(FileHash(prev)) then Ok(()) else Err(Corrupt)
  }

  /** What `create` signs in a given state of the fabric. */
  ghost function MintedPayload(lines: seq<Line>, fabricId: string, head: Option<Hash>, lastAnchor: Option<string>, ts: nat): Payload {
    var tip := NextLink(lines);
    Payload("respawn-anchor", ANCHOR_VERSION, fabricId, tip.0, tip.1,
            if head.Some? then Some(Hex(head.value)) else None, lastAnchor, ts)
  }

  ghost function MintedFile(key: Key, payload: Payload): Bytes {
    var text := SerializePayload(payload);
    SerializeFile(AnchorFile("respawn-anchor/v1", PublicHex(key), text, Sign(key, text)))
  }

  lemma MintedChecks(key: Key, payload: Payload)
    requires Encodings() && payload.kind == "respawn-anchor" && payload.version == ANCHOR_VERSION
    ensures CheckedAnchor(MintedFile(key, payload)).Ok? && CheckedAnchor(MintedFile(key, payload)).value.1 == payload
  {
  }

  class Fabric {
    const log: AuditLog
    const key: Key
    const fabricId: string
    var head: Option<Hash>
    var lastAnchor: Option<string>

    constructor (key: Key, fabricId: string)
      ensures this.key == key && this.fabricId == fabricId && fresh(log)
      ensures head == None && lastAnchor == None && log.lines == []
    {
      this.key, this.fabricId, head, lastAnchor := key, fabricId, None, None;
      log := new AuditLog();
    }

    /** Sign a checkpoint and remember its hash.  The bytes go to a path of the operator's choice: `inside`
        says whether it resolves to a place inside the fabric directory, `keyHeld` whether the key can be
        had.  The file and its hash are two writes; with `cut` only the first one happens, and `written` is
        the file all the same. */
    method Create(ts: nat, inside: bool, keyHeld: bool, cut: bool) returns (r: Result<Bytes>, ghost written: Option<Bytes>)
      modifies this`lastAnchor
      ensures written.Some? <==> !inside && keyHeld && Garbage !in log.lines
      ensures written.Some? ==> written.value == MintedFile(key, MintedPayload(log.lines, fabricId, head, old(lastAnchor), ts))
      ensures written.Some? && Encodings() && |written.value| <= 4_194_304 ==>
        && Genuine(written.value) && ParseFile(written.value).value.pubkey == PublicHex(key)
        && SignedPayload(written.value).fabricId == fabricId && SignedPayload(written.value).ts == ts
        && (SignedPayload(written.value).auditLen, SignedPayload(written.value).auditTip) == NextLink(log.lines)
        && SignedPayload(written.value).head == (if head.Some? then Some(Hex(head.value)) else None)
        && SignedPayload(written.value).prevAnchor == old(lastAnchor)
      ensures r.Ok? <==> written.Some? && !cut
      ensures r.Ok? ==> r.value == written.value
      ensures lastAnchor == if r.Ok? then Some(Hex(HashBytes(r.value))) else old(lastAnchor)
    {
      written := None;
      if inside || !keyHeld {
        r := Err(Corrupt);
        return;
      }
      var tip :- log.Tip();
      var payload := Payload("respawn-anchor", ANCHOR_VERSION, fabricId, tip.0, tip.1,
                             if head.Some? then Some(Hex(head.value)) else None, lastAnchor, ts);
      var text := SerializePayload(payload);
      var bytes := SerializeFile(AnchorFile("respawn-anchor/v1", PublicHex(key), text, Sign(key, text)));
      written := Some(bytes);
      if cut {
        r := Err(Io);
        return;
      }
      lastAnchor := Some(FileHash(bytes));
      r := Ok(bytes);
    }

    /** Check an anchor against the live log. */
    method Verify(bytes: Bytes, expectedKey: Option<string>) returns (r: Result<VerifyOutcome>)
      ensures r.Ok? <==>
        && Genuine(bytes)
        && (expectedKey.Some? ==> SameLetters(expectedKey.value, ParseFile(bytes).value.pubkey))
        && SignedPayload(bytes).fabricId == fabricId
        && Accepts(log.lines, SignedPayload(bytes).auditLen, SignedPayload(bytes).auditTip)
      ensures r.Ok? ==>
        && r.value.signer == ParseFile(bytes).value.pubkey && r.value.fileHash == Hex(HashBytes(bytes))
        && r.value.auditLen == SignedPayload(bytes).auditLen && r.value.prevAnchor == SignedPayload(bytes).prevAnchor
        && r.value.anchoredHead == SignedPayload(bytes).head
        && r.value.currentHead == if head.Some? then Some(Hex(head.value)) else None
    {
      var checked :- ReadAnchor(bytes);
      var file, payload := checked.0, checked.1;
      if expectedKey.Some? {
        LowerMeans(expectedKey.value, file.pubkey);
      }
      if expectedKey.Some? && Lower(expectedKey.value) != Lower(file.pubkey) {
        return Err(Corrupt);
      }
      if payload.fabricId != fabricId {
        return Err(Corrupt);
      }
      var prefix :- log.TipIsPrefix(payload.auditLen, payload.auditTip);
      var now := if head.Some? then Some(Hex(head.value)) else None;
      return Ok(VerifyOutcome(file.pubkey, payload.auditLen, payload.head, now, FileHash(bytes), payload.prevAnchor));
    }
  }

  // ---------------------------------------------------------------------------------------------
  // Binding
  // ---------------------------------------------------------------------------------------------

  /** Two chains of the same length with the same last hash are the same chain. */
  lemma {:induction false} ChainsAreBound(a: seq<Line>, b: seq<Line>)
    requires Binding() && Chained(a) && Chained(b) && |a| == |b| && LinkOf(a) == LinkOf(b)
    ensures a == b
  {
    if a != [] {
      var la, lb := a[|a| - 1], b[|b| - 1];
      EntryHashInjective(la.entry.body, lb.entry.body);
      ChainsAreBound(a[..|a| - 1], b[..|b| - 1]);
      assert a == a[..|a| - 1] + [la] && b == b[..|b| - 1] + [lb];
    }
  }

  /** An anchor on a valid log covers another log exactly when that log still begins with every entry
      the anchor was taken on, whatever was done to the file in the meantime. */
  lemma AnchorBinds(lines: seq<Line>, later: seq<Line>)
    requires Binding() && ValidLog(lines)
    ensures var (len, tip) := NextLink(lines);
            Accepts(later, len, tip) <==> Solid(lines) <= Solid(later)
  {
    NextLinkOfValid(lines);
    var a, b, n := Solid(lines), Solid(later), |Solid(lines)|;
    if Covers(later, n, LinkOf(a)) {
      ChainsAreBound(a, b[..n]);
    }
    if a <= b {
      assert b[..n] == a;
    }
  }

  lemma {:induction false} SolidOfSolid(lines: seq<Line>)
    requires forall l :: l in lines ==> !l.Blank?
    ensures Solid(lines) == lines
  {
    if lines != [] {
      SolidOfSolid(lines[..|lines| - 1]);
      assert lines == lines[..|lines| - 1] + [lines[|lines| - 1]];
    }
  }

  lemma {:induction false} SolidIsSolid(lines: seq<Line>)
    ensures forall l :: l in Solid(lines) ==> !l.Blank?
  {
    if lines != [] {
      SolidIsSolid(lines[..|lines| - 1]);
    }
  }

  /** The covered entries of a log that an anchor accepts are a log it accepts. */
  lemma CoveredPart(later: seq<Line>, len: nat, tip: string)
    requires Covers(later, len, tip)
    ensures var part := Solid(later)[..len]; Solid(part) == part && Covers(part, len, tip) && ValidLog(part)
  {
    var part := Solid(later)[..len];
    SolidIsSolid(later);
    SolidOfSolid(part);
    assert part[..len] == part;
  }

  lemma {:induction false} NextOfParsable(lines: seq<Line>)
    requires Garbage !in lines
    ensures NextLink(lines).0 == 0 <==> Solid(lines) == []
  {
    if lines != [] {
      var init, last := lines[..|lines| - 1], lines[|lines| - 1];
      assert lines == init + [last];
      NextOfParsable(init);
    }
  }

  /** `tip` lets every log through that parses.  An anchor taken on such a log binds it, so that every later
      log it accepts begins with all that was there, exactly when the log was valid or when the anchor
      accepts no log at all. */
  lemma ParsableLogBinds(lines: seq<Line>)
    requires Binding() && Garbage !in lines
    ensures var (len, tip) := NextLink(lines);
            (forall later :: Accepts(later, len, tip) ==> Solid(lines) <= Solid(later)) <==>
              ValidLog(lines) || forall later :: !Accepts(later, len, tip)
  {
    var (len, tip) := NextLink(lines);
    if ValidLog(lines) {
      forall later | Accepts(later, len, tip) ensures Solid(lines) <= Solid(later) {
        AnchorBinds(lines, later);
      }
    } else if later :| Accepts(later, len, tip) {
      NextOfParsable(lines);
      CoveredPart(later, len, tip);
      var part := Solid(later)[..len];
      assert Accepts(part, len, tip);
      if Solid(lines) <= Solid(part) {
        assert Solid(lines) == part[..|Solid(lines)|];
        ChainedPrefix(part, |Solid(lines)|);
      }
    }
  }

  /** An entry repeated: the log parses, its chain is broken, and its anchor accepts a log half as long. */
  lemma BrokenLogAnchored(b: Body)
    requires b.seqNo == 0 && b.prev == ""
    ensures var e := Parsed(Entry(b, EntryHash(b)));
      var (len, tip) := NextLink([e, e]);
      && Garbage !in [e, e] && !ValidLog([e, e])
      && Accepts([e], len, tip) && !(Solid([e, e]) <= Solid([e]))
  {
    var e := Parsed(Entry(b, EntryHash(b)));
    SolidOfSolid([e]);
    SolidOfSolid([e, e]);
    assert [e, e][..1] == [e] && [e][..0] == [] && [e][..1] == [e];
    ChainedStep([], e);
    ChainedStep([e], e);
    assert [] + [e] == [e] && [e] + [e] == [e, e];
  }

  // ---------------------------------------------------------------------------------------------
  // Series
  // ---------------------------------------------------------------------------------------------

  ghost predicate Linked(series: seq<Bytes>) {
    forall i :: 0 < i < |series| ==> VerifyLink(series[i], series[i - 1]).Ok?
  }

  ghost predicate Unlinked(bytes: Bytes) {
    CheckedAnchor(bytes).Ok? && CheckedAnchor(bytes).value.1.prevAnchor == None
  }

  /** Two pairwise verified series that end in the same file agree, file by file, from the end. */
  lemma {:induction false} SeriesAgree(s: seq<Bytes>, t: seq<Bytes>, k: nat)
    requires Binding() && Linked(s) && Linked(t)
    requires k < |s| && k < |t| && s[|s| - 1] == t[|t| - 1]
    ensures s[|s| - 1 - k] == t[|t| - 1 - k]
  {
    if k > 0 {
      SeriesAgree(s, t, k - 1);
      var i, j := |s| - k, |t| - k;
      assert VerifyLink(s[i], s[i - 1]).Ok? && VerifyLink(t[j], t[j - 1]).Ok?;
      assert FileHash(s[i - 1]) == FileHash(t[j - 1]);
    }
  }

  lemma LinkedHasPredecessor(s: seq<Bytes>, i: nat)
    requires Linked(s) && 0 < i < |s|
    ensures !Unlinked(s[i])
  {
    assert VerifyLink(s[i], s[i - 1]).Ok?;
  }

  /** Complete series with the same last file are identical: nothing can be left out or put in front. */
  lemma CompleteSeriesEqual(s: seq<Bytes>, t: seq<Bytes>)
    requires Binding() && Linked(s) && Linked(t)
    requires s != [] && t != [] && s[|s| - 1] == t[|t| - 1]
    requires Unlinked(s[0]) && Unlinked(t[0])
    ensures s == t
  {
    if |s| < |t| {
      SeriesAgree(s, t, |s| - 1);
      LinkedHasPredecessor(t, |t| - |s|);
    } else if |t| < |s| {
      SeriesAgree(s, t, |t| - 1);
      LinkedHasPredecessor(s, |s| - |t|);
    }
    forall i | 0 <= i < |s| && |s| == |t| ensures s[i] == t[i] {
      SeriesAgree(s, t, |s| - 1 - i);
    }
  }

  function Without(s: seq<Bytes>, i: nat): seq<Bytes>
    requires i < |s|
  {
    s[..i] + s[i + 1..]
  }

  /** A file deleted from within a verified series breaks it, unless it was a copy of the one before. */
  lemma DeletionBreaks(s: seq<Bytes>, i: nat)
    requires Binding() && Linked(s) && 0 < i < |s| - 1
    ensures Linked(Without(s, i)) <==> s[i] == s[i - 1]
  {
    var gap := Without(s, i);
    assert VerifyLink(s[i + 1], s[i]).Ok? && VerifyLink(s[i], s[i - 1]).Ok?;
    if Linked(gap) {
      assert VerifyLink(gap[i], gap[i - 1]).Ok?;
      assert FileHash(s[i]) == FileHash(s[i - 1]);
    }
    if s[i] == s[i - 1] {
      forall k | 0 < k < |gap| ensures VerifyLink(gap[k], gap[k - 1]).Ok? {
        assert VerifyLink(s[if k < i then k else k + 1], s[if k < i then k - 1 else k]).Ok?;
      }
    }
  }

  /** A fabric as the minting of anchors sees it. */
  datatype State = State(lines: seq<Line>, head: Option<Hash>, lastAnchor: Option<string>)

  datatype Event = Work | Mint(ts: nat, bytes: Bytes) | CutMint(ts: nat, bytes: Bytes)

  /** Work appends to a valid log and may move HEAD; minting writes an anchor, and remembers it unless cut
      off in between. */
  ghost predicate Happens(s: State, s': State, key: Key, fabricId: string, e: Event) {
    match e
    case Work => s.lines <= s'.lines && ValidLog(s'.lines) && s'.lastAnchor == s.lastAnchor
    case Mint(ts, bytes) =>
      && bytes == MintedFile(key, MintedPayload(s.lines, fabricId, s.head, s.lastAnchor, ts))
      && |bytes| <= MAX_ANCHOR_BYTES
      && s' == s.(lastAnchor := Some(FileHash(bytes)))
    case CutMint(ts, bytes) =>
      && bytes == MintedFile(key, MintedPayload(s.lines, fabricId, s.head, s.lastAnchor, ts))
      && |bytes| <= MAX_ANCHOR_BYTES
      && s' == s
  }

  ghost predicate IsRun(states: seq<State>, events: seq<Event>, key: Key, fabricId: string) {
    && |states| == |events| + 1 && ValidLog(states[0].lines)
    && forall i :: 0 <= i < |events| ==> Happens(states[i], states[i + 1], key, fabricId, events[i])
  }

  /** The series: the files of the mintings that were not cut off. */
  function Minted(events: seq<Event>): (r: seq<Bytes>)
    ensures forall b :: b in r <==> exists i :: 0 <= i < |events| && events[i].Mint? && events[i].bytes == b
  {
    if events == [] then []
    else Minted(events[..|events| - 1]) + match events[|events| - 1] case Mint(_, bytes) => [bytes] case _ => []
  }

  function AuditLen(bytes: Bytes): nat {
    if CheckedAnchor(bytes).Ok? then CheckedAnchor(bytes).value.1.auditLen else 0
  }

  /** The anchors in `series` are linked, cover ever more of the log, and all still cover `s`. */
  ghost predicate GoodSeries(series: seq<Bytes>, s: State, fabricId: string) {
    && ValidLog(s.lines) && Linked(series)
    && (forall i :: 0 <= i < |series| ==> Current(series[i], s, fabricId))
    && (forall i, j :: 0 <= i < j < |series| ==> AuditLen(series[i]) <= AuditLen(series[j]))
    && (series != [] ==> s.lastAnchor == Some(FileHash(series[|series| - 1])))
  }

  /** `bytes` is an anchor that verifies against the fabric in state `s`. */
  ghost predicate Current(bytes: Bytes, s: State, fabricId: string) {
    && ReadAnchor(bytes).Ok?
    && var p := ReadAnchor(bytes).value.1;
       p.fabricId == fabricId && p.auditLen <= |Solid(s.lines)| && Accepts(s.lines, p.auditLen, p.auditTip)
  }

  lemma StaysCurrent(bytes: Bytes, s: State, s': State, fabricId: string)
    requires Current(bytes, s, fabricId) && s.lines <= s'.lines
    ensures Current(bytes, s', fabricId)
  {
    assert s'.lines[..|s.lines|] == s.lines;
    SolidGrows(s'.lines, |s.lines|);
    var p := ReadAnchor(bytes).value.1;
    assert Solid(s'.lines)[..p.auditLen] == Solid(s.lines)[..p.auditLen];
  }

  /** Every series that one fabric mints over a growing valid log verifies link by link, covers
      non-decreasing stretches of the log, and keeps verifying against the log to the end. */
  lemma {:induction false} MintedSeriesIsGood(states: seq<State>, events: seq<Event>, key: Key, fabricId: string)
    requires Encodings() && IsRun(states, events, key, fabricId)
    ensures GoodSeries(Minted(events), states[|states| - 1], fabricId)
  {
    if events != [] {
      var n := |events| - 1;
      RunPrefix(states, events, key, fabricId);
      MintedSeriesIsGood(states[..n + 1], events[..n], key, fabricId);
      assert Happens(states[n], states[n + 1], key, fabricId, events[n]);
      match events[n]
      case Work => WorkStep(Minted(events[..n]), states[n], states[n + 1], key, fabricId);
      case Mint(ts, bytes) => MintStep(Minted(events[..n]), states[n], states[n + 1], key, fabricId, ts, bytes);
      case CutMint(ts, bytes) => assert Minted(events) == Minted(events[..n]);
    }
  }

  lemma RunPrefix(states: seq<State>, events: seq<Event>, key: Key, fabricId: string)
    requires IsRun(states, events, key, fabricId) && events != []
    ensures IsRun(states[..|events|], events[..|events| - 1], key, fabricId)
    ensures states[..|events|][|events| - 1] == states[|events| - 1]
  {
  }

  lemma WorkStep(series: seq<Bytes>, s: State, s': State, key: Key, fabricId: string)
    requires GoodSeries(series, s, fabricId) && Happens(s, s', key, fabricId, Work)
    ensures GoodSeries(series + [], s', fabricId)
  {
    assert series + [] == series;
    forall i | 0 <= i < |series| ensures Current(series[i], s', fabricId) {
      StaysCurrent(series[i], s, s', fabricId);
    }
  }

  /** A minted anchor verifies at once and covers the whole valid log. */
  lemma MintedIsCurrent(s: State, s': State, key: Key, fabricId: string, ts: nat, bytes: Bytes)
    requires Encodings() && ValidLog(s.lines) && Happens(s, s', key, fabricId, Mint(ts, bytes))
    ensures Current(bytes, s', fabricId) && AuditLen(bytes) == |Solid(s.lines)| && s'.lines == s.lines
    ensures ReadAnchor(bytes).Ok? && ReadAnchor(bytes).value.1.prevAnchor == s.lastAnchor
  {
    MintedChecks(key, MintedPayload(s.lines, fabricId, s.head, s.lastAnchor, ts));
    NextLinkOfValid(s.lines);
    assert Solid(s.lines)[..|Solid(s.lines)|] == Solid(s.lines);
  }

  /** An anchor whose minting was cut off before the fabric remembered it is no part of the series: the next
      one names its predecessor instead. */
  lemma CutMintFallsOut(s: State, s': State, key: Key, fabricId: string, cut: Bytes, next: Bytes, before: Bytes, ts: nat, ts': nat)
    requires Encodings() && s'.lastAnchor == s.lastAnchor && s.lastAnchor == Some(FileHash(before)) && ReadAnchor(before).Ok?
    requires Happens(s, s, key, fabricId, CutMint(ts, cut))
    requires Happens(s', s'.(lastAnchor := Some(FileHash(next))), key, fabricId, Mint(ts', next))
    ensures ReadAnchor(cut).Ok? && VerifyLink(cut, before).Ok? && VerifyLink(next, before).Ok?
    ensures VerifyLink(next, cut).Ok? <==> FileHash(cut) == FileHash(before)
  {
    MintedChecks(key, MintedPayload(s.lines, fabricId, s.head, s.lastAnchor, ts));
    MintedChecks(key, MintedPayload(s'.lines, fabricId, s'.head, s'.lastAnchor, ts'));
  }

  lemma LinkedOneMore(series: seq<Bytes>, bytes: Bytes)
    requires Linked(series)
    requires series != [] ==> VerifyLink(bytes, series[|series| - 1]).Ok?
    ensures Linked(series + [bytes])
  {
    var longer := series + [bytes];
    forall i | 0 < i < |longer| ensures VerifyLink(longer[i], longer[i - 1]).Ok? {
      if i < |series| {
        assert VerifyLink(series[i], series[i - 1]).Ok?;
      }
    }
  }

  lemma MintStep(series: seq<Bytes>, s: State, s': State, key: Key, fabricId: string, ts: nat, bytes: Bytes)
    requires Encodings() && GoodSeries(series, s, fabricId)
    requires Happens(s, s', key, fabricId, Mint(ts, bytes))
    ensures GoodSeries(series + [bytes], s', fabricId)
  {
    MintedIsCurrent(s, s', key, fabricId, ts, bytes);
    if series != [] {
      assert Current(series[|series| - 1], s, fabricId);
    }
    LinkedOneMore(series, bytes);
    var longer := series + [bytes];
    forall i | 0 <= i < |longer| ensures Current(longer[i], s', fabricId) && AuditLen(longer[i]) <= AuditLen(bytes) {
      if i < |series| { assert Current(series[i], s, fabricId); }
    }
  }
}
