/** Frames over a Noise channel (`secure.rs`).  The cipher is uninterpreted; a stream direction is the
    sequence of bytes not yet read. */
module Secure {
  import opened Core
  import opened LittleEndian
  import opened Wire

  const PLAINTEXT_MSG := 48 * 1024
  const MSG_CAP := PLAINTEXT_MSG + 64
  const TAG := 16
  const NOISE_LIMIT := 65535
  const NONCE_LIMIT := 0xFFFF_FFFF_FFFF_FFFF

  /** A transport key, and sealing and opening one message under a nonce. */
  type SessionKey(==, 0, !new)
  const Seal: (SessionKey, nat, Bytes) -> Bytes
  const Open: (SessionKey, nat, Bytes) -> Option<Bytes>

  /** Sealing adds a tag and opening undoes it. */
  ghost predicate Aead() {
    forall k: SessionKey, n: nat, p: Bytes :: |Seal(k, n, p)| == |p| + TAG && Open(k, n, Seal(k, n, p)) == Some(p)
  }

  /** Only sealed messages open. */
  ghost predicate Authentic() {
    forall k: SessionKey, n: nat, c: Bytes :: Open(k, n, c).Some? ==> c == Seal(k, n, Open(k, n, c).value)
  }

  // ---------------------------------------------------------------------------------------------
  // What is on the wire
  // ---------------------------------------------------------------------------------------------

  /** `payload.chunks(PLAINTEXT_MSG)`. */
  function Chunks(payload: Bytes): seq<Bytes> {
    if payload == [] then []
    else if |payload| <= PLAINTEXT_MSG then [payload]
    else [payload[..PLAINTEXT_MSG]] + Chunks(payload[PLAINTEXT_MSG..])
  }

  function Flatten(pieces: seq<Bytes>): Bytes {
    if pieces == [] then [] else pieces[0] + Flatten(pieces[1..])
  }

  /** A length-prefixed message. */
  function Message(ct: Bytes): Bytes { LE32(|ct|) + ct }

  /** The messages `pieces`, sealed under consecutive nonces from `n`. */
  function Sealed(k: SessionKey, n: nat, pieces: seq<Bytes>): Bytes
    decreases |pieces|
  {
    if pieces == [] then [] else Message(Seal(k, n, pieces[0])) + Sealed(k, n + 1, pieces[1..])
  }

  /** A frame: its length in a message of its own, then its pieces. */
  function Framed(k: SessionKey, n: nat, length: nat, pieces: seq<Bytes>): Bytes {
    Message(Seal(k, n, LE32(length))) + Sealed(k, n + 1, pieces)
  }

  /** A piece that a sender may use: not empty, and within the message cap once sealed. */
  predicate Sendable(piece: Bytes) { piece != [] && |piece| + TAG <= MSG_CAP }

  // ---------------------------------------------------------------------------------------------
  // What a reader makes of it
  // ---------------------------------------------------------------------------------------------

  function ReadExact(input: Bytes, n: nat): Result<(Bytes, Bytes)> {
    if |input| < n then Err(Io) else Ok((input[..n], input[n..]))
  }

  function ReadMsg(input: Bytes, cap: nat): Result<(Bytes, Bytes)> {
    var head :- ReadExact(input, 4);
    var len := FromLE(head.0);
    if len == 0 || len > cap then Err(Protocol) else ReadExact(head.1, len)
  }

  /** One message opened under nonce `n`: the plaintext, and what is left of the input. */
  function OpenNext(k: SessionKey, n: nat, input: Bytes): Result<(Bytes, Bytes)> {
    var msg :- ReadMsg(input, MSG_CAP);
    if n >= NONCE_LIMIT then Err(Protocol)
    else match Open(k, n, msg.0)
      case None => Err(Protocol)
      case Some(p) => if |p| > MSG_CAP then Err(Protocol) else Ok((p, msg.1))
  }

  datatype Reading = Reading(data: Bytes, nonce: nat, rest: Bytes)

  /** Messages until `need` bytes have come together. */
  function Gather(k: SessionKey, n: nat, input: Bytes, need: nat): Result<Reading>
    decreases need
  {
    if need == 0 then Ok(Reading([], n, input))
    else
      var msg :- OpenNext(k, n, input);
      if |msg.0| > need || msg.0 == [] then Err(Protocol)
      else
        var more :- Gather(k, n + 1, msg.1, need - |msg.0|);
        Ok(Reading(msg.0 + more.data, more.nonce, more.rest))
  }

  ghost predicate Gathers(k: SessionKey, n: nat, input: Bytes, need: nat, r: Reading) {
    Gather(k, n, input, need) == Ok(r)
  }

  function ReadFrame(k: SessionKey, n: nat, input: Bytes): Result<Reading> {
    var head :- OpenNext(k, n, input);
    if |head.0| != 4 then Err(Protocol)
    else if FromLE(head.0) > MAX_FRAME then Err(TooLarge)
    else Gather(k, n + 1, head.1, FromLE(head.0))
  }

  // ---------------------------------------------------------------------------------------------
  // Round trips
  // ---------------------------------------------------------------------------------------------

  lemma ReadMsgRoundTrip(ct: Bytes, rest: Bytes, cap: nat)
    requires 0 < |ct| <= cap && |ct| < 0x1_0000_0000
    ensures ReadMsg(Message(ct) + rest, cap) == Ok((ct, rest))
  {
    LengthFirst(ct, rest, Message(ct) + rest);
  }

  /** A reader takes a message exactly when it is not empty and within the cap. */
  lemma ReadMsgMeans(input: Bytes, cap: nat, ct: Bytes, rest: Bytes)
    ensures ReadMsg(input, cap) == Ok((ct, rest)) <==>
              0 < |ct| <= cap && |ct| < 0x1_0000_0000 && input == Message(ct) + rest
  {
    if ReadMsg(input, cap) == Ok((ct, rest)) {
      LE32Canonical(input[..4]);
      assert input[4..] == ct + rest;
      assert input == input[..4] + input[4..];
      ConcatAssociates(input[..4], ct, rest);
    } else if 0 < |ct| <= cap && |ct| < 0x1_0000_0000 && input == Message(ct) + rest {
      ReadMsgRoundTrip(ct, rest, cap);
    }
  }

  /** `input` begins with the message `ct`, which opens under the unspent nonce `n` to the plaintext `p`. */
  ghost predicate Carries(k: SessionKey, n: nat, input: Bytes, ct: Bytes, p: Bytes, rest: Bytes) {
    && input == Message(ct) + rest && 0 < |ct| <= 49_216
    && n < 0xFFFF_FFFF_FFFF_FFFF && Open(k, n, ct) == Some(p) && |p| <= 49_216
  }

  lemma OpenNextMeans(k: SessionKey, n: nat, input: Bytes, p: Bytes, rest: Bytes)
    ensures OpenNext(k, n, input) == Ok((p, rest)) <==> exists ct :: Carries(k, n, input, ct, p, rest)
  {
    if OpenNext(k, n, input) == Ok((p, rest)) {
      var ct := ReadMsg(input, MSG_CAP).value.0;
      ReadMsgMeans(input, MSG_CAP, ct, rest);
      assert Carries(k, n, input, ct, p, rest);
    }
    if ct :| Carries(k, n, input, ct, p, rest) {
      ReadMsgMeans(input, MSG_CAP, ct, rest);
    }
  }

  lemma OpenNextRoundTrip(k: SessionKey, n: nat, input: Bytes, p: Bytes, rest: Bytes)
    requires Aead() && |p| + TAG <= MSG_CAP && n < NONCE_LIMIT
    requires input == Message(Seal(k, n, p)) + rest
    ensures OpenNext(k, n, input) == Ok((p, rest))
  {
    ReadMsgRoundTrip(Seal(k, n, p), rest, MSG_CAP);
  }

  lemma GatherStep(k: SessionKey, n: nat, input: Bytes, need: nat, p: Bytes, more: Bytes, r: Reading, whole: Reading)
    requires OpenNext(k, n, input) == Ok((p, more)) && 0 < |p| <= need
    requires Gathers(k, n + 1, more, need - |p|, r)
    requires whole.data == p + r.data && whole.nonce == r.nonce && whole.rest == r.rest
    ensures Gathers(k, n, input, need, whole)
  {
  }

  lemma SealedStep(k: SessionKey, n: nat, pieces: seq<Bytes>, rest: Bytes)
    requires pieces != []
    ensures Sealed(k, n, pieces) + rest == Message(Seal(k, n, pieces[0])) + (Sealed(k, n + 1, pieces[1..]) + rest)
  {
    ConcatAssociates(Message(Seal(k, n, pieces[0])), Sealed(k, n + 1, pieces[1..]), rest);
  }

  lemma FirstPiece(k: SessionKey, n: nat, input: Bytes, need: nat, p: Bytes, more: Bytes, r: Reading, whole: Reading)
    requires Aead() && Sendable(p) && n < NONCE_LIMIT && |p| <= need
    requires input == Message(Seal(k, n, p)) + more
    requires Gathers(k, n + 1, more, need - |p|, r)
    requires whole.data == p + r.data && whole.nonce == r.nonce && whole.rest == r.rest
    ensures Gathers(k, n, input, need, whole)
  {
    OpenNextRoundTrip(k, n, input, p, more);
    GatherStep(k, n, input, need, p, more, r, whole);
  }

  /** Any fragmentation into sendable pieces reads back as the same bytes. */
  lemma {:induction false} GatherPieces(k: SessionKey, n: nat, input: Bytes, need: nat, pieces: seq<Bytes>, rest: Bytes)
    requires Aead() && n + |pieces| <= NONCE_LIMIT && forall p :: p in pieces ==> Sendable(p)
    requires input == Sealed(k, n, pieces) + rest && need == |Flatten(pieces)|
    ensures Gathers(k, n, input, need, Reading(Flatten(pieces), n + |pieces|, rest))
    decreases |pieces|
  {
    if pieces == [] {
      assert input == rest;
    } else {
      var p, tail := pieces[0], pieces[1..];
      var more := Sealed(k, n + 1, tail) + rest;
      assert Sendable(p);
      SealedStep(k, n, pieces, rest);
      GatherPieces(k, n + 1, more, need - |p|, tail, rest);
      var r, whole := Reading(Flatten(tail), n + 1 + |tail|, rest), Reading(Flatten(pieces), n + |pieces|, rest);
      FirstPiece(k, n, input, need, p, more, r, whole);
    }
  }

  lemma FrameStep(k: SessionKey, n: nat, input: Bytes, length: nat, more: Bytes, r: Reading)
    requires OpenNext(k, n, input) == Ok((LE32(length), more)) && length <= MAX_FRAME
    requires Gathers(k, n + 1, more, length, r)
    ensures ReadFrame(k, n, input) == Ok(r)
  {
    LE32RoundTrip(length);
  }

  lemma FirstLength(k: SessionKey, n: nat, input: Bytes, length: nat, more: Bytes, r: Reading)
    requires Aead() && n < NONCE_LIMIT && length <= MAX_FRAME
    requires input == Message(Seal(k, n, LE32(length))) + more
    requires Gathers(k, n + 1, more, length, r)
    ensures ReadFrame(k, n, input) == Ok(r)
  {
    OpenNextRoundTrip(k, n, input, LE32(length), more);
    FrameStep(k, n, input, length, more, r);
  }

  lemma FramedSplit(k: SessionKey, n: nat, pieces: seq<Bytes>, rest: Bytes)
    ensures Framed(k, n, |Flatten(pieces)|, pieces) + rest ==
            Message(Seal(k, n, LE32(|Flatten(pieces)|))) + (Sealed(k, n + 1, pieces) + rest)
  {
    ConcatAssociates(Message(Seal(k, n, LE32(|Flatten(pieces)|))), Sealed(k, n + 1, pieces), rest);
  }

  lemma FrameRoundTrip(k: SessionKey, n: nat, input: Bytes, pieces: seq<Bytes>, rest: Bytes)
    requires Aead() && n + 1 + |pieces| <= NONCE_LIMIT && |Flatten(pieces)| <= MAX_FRAME
    requires forall p :: p in pieces ==> Sendable(p)
    requires input == Framed(k, n, |Flatten(pieces)|, pieces) + rest
    ensures ReadFrame(k, n, input) == Ok(Reading(Flatten(pieces), n + 1 + |pieces|, rest))
  {
    var length, more := |Flatten(pieces)|, Sealed(k, n + 1, pieces) + rest;
    GatherPieces(k, n + 1, more, length, pieces, rest);
    assert input == Message(Seal(k, n, LE32(length))) + more by {
      FramedSplit(k, n, pieces, rest);
    }
    FirstLength(k, n, input, length, more, Reading(Flatten(pieces), n + 1 + |pieces|, rest));
  }

  /** The chunks a writer cuts are sendable, keep every ciphertext small, and add up to the payload. */
  lemma {:induction false} ChunksAddUp(payload: Bytes)
    ensures Flatten(Chunks(payload)) == payload
    ensures forall p :: p in Chunks(payload) ==> Sendable(p) && |p| + TAG <= 49168
    ensures forall i :: 0 <= i < |Chunks(payload)| - 1 ==> |Chunks(payload)[i]| == 49_152
    ensures |Chunks(payload)| <= |payload|
    decreases |payload|
  {
    if payload != [] {
      if |payload| <= PLAINTEXT_MSG {
        assert Flatten([payload]) == payload + Flatten([]);
      } else {
        var front, back := payload[..PLAINTEXT_MSG], payload[PLAINTEXT_MSG..];
        ChunksAddUp(back);
        assert Chunks(payload)[1..] == Chunks(back);
        assert front + back == payload;
      }
    }
  }

  /** Converse: whatever a reader accepts was a fragmented frame, sealed under the expected nonces. */
  lemma {:induction false} GatheredWasSent(k: SessionKey, n: nat, input: Bytes, need: nat) returns (pieces: seq<Bytes>)
    requires Authentic() && Gather(k, n, input, need).Ok?
    ensures WasSent(k, n, input, Gather(k, n, input, need).value, pieces) && |Flatten(pieces)| == need
    decreases need
  {
    if need == 0 {
      pieces := [];
      assert Sealed(k, n, []) + input == input;
    } else {
      var msg := OpenNext(k, n, input).value;
      OpenedWasSent(k, n, input);
      var more := GatheredWasSent(k, n + 1, msg.1, need - |msg.0|);
      pieces := [msg.0] + more;
      WasSentStep(k, n, input, msg.0, msg.1, Gather(k, n + 1, msg.1, need - |msg.0|).value, more);
    }
  }

  /** `input` is the non-empty `pieces`, sealed from nonce `n`, and then what `r` leaves. */
  ghost predicate WasSent(k: SessionKey, n: nat, input: Bytes, r: Reading, pieces: seq<Bytes>) {
    && input == Sealed(k, n, pieces) + r.rest
    && r.data == Flatten(pieces) && r.nonce == n + |pieces|
    && (forall p :: p in pieces ==> p != []) && (pieces != [] ==> r.nonce <= NONCE_LIMIT)
    && (Aead() ==> forall p :: p in pieces ==> Sendable(p))
  }

  lemma WasSentStep(k: SessionKey, n: nat, input: Bytes, p: Bytes, rest: Bytes, r: Reading, more: seq<Bytes>)
    requires p != [] && input == Message(Seal(k, n, p)) + rest && WasSent(k, n + 1, rest, r, more)
    requires n < NONCE_LIMIT && (Aead() ==> Sendable(p))
    ensures WasSent(k, n, input, Reading(p + r.data, r.nonce, r.rest), [p] + more)
    ensures |Flatten([p] + more)| == |p| + |Flatten(more)|
  {
    assert ([p] + more)[1..] == more;
    SealedStep(k, n, [p] + more, r.rest);
  }

  lemma OpenedWasSent(k: SessionKey, n: nat, input: Bytes)
    requires Authentic() && OpenNext(k, n, input).Ok?
    ensures input == Message(Seal(k, n, OpenNext(k, n, input).value.0)) + OpenNext(k, n, input).value.1
    ensures n < NONCE_LIMIT && (Aead() ==> |OpenNext(k, n, input).value.0| + TAG <= MSG_CAP)
  {
    LE32Canonical(input[..4]);
    var msg := ReadMsg(input, MSG_CAP).value;
    assert input[4..] == msg.0 + msg.1;
    assert input == input[..4] + input[4..];
  }

  lemma FrameWasSent(k: SessionKey, n: nat, input: Bytes) returns (pieces: seq<Bytes>)
    requires Authentic() && ReadFrame(k, n, input).Ok?
    ensures var r := ReadFrame(k, n, input).value;
      && input == Framed(k, n, |r.data|, pieces) + r.rest
      && r.data == Flatten(pieces) && |r.data| <= 67_108_864 && r.nonce == n + 1 + |pieces|
      && r.nonce <= NONCE_LIMIT && (Aead() ==> forall p :: p in pieces ==> Sendable(p))
  {
    var head := OpenNext(k, n, input).value;
    OpenedWasSent(k, n, input);
    LE32Canonical(head.0);
    pieces := GatheredWasSent(k, n + 1, head.1, FromLE(head.0));
    ConcatAssociates(Message(Seal(k, n, head.0)), Sealed(k, n + 1, pieces), ReadFrame(k, n, input).value.rest);
  }

  /** `input` begins with a frame of `data` in `pieces`, each of them not empty and within the message cap,
      under nonces that are not spent, and `r` is what reading it gives. */
  ghost predicate SentAs(k: SessionKey, n: nat, input: Bytes, r: Reading, pieces: seq<Bytes>) {
    && input == Framed(k, n, |r.data|, pieces) + r.rest
    && r.data == Flatten(pieces) && |r.data| <= 67_108_864
    && r.nonce == n + 1 + |pieces| && r.nonce <= 0xFFFF_FFFF_FFFF_FFFF
    && forall p :: p in pieces ==> 0 < |p| <= 49_200
  }

  /** The reader takes exactly the frames that a sender may send, however they are cut. */
  lemma ReadFrameMeans(k: SessionKey, n: nat, input: Bytes, r: Reading)
    requires Aead() && Authentic()
    ensures ReadFrame(k, n, input) == Ok(r) <==> exists pieces :: SentAs(k, n, input, r, pieces)
  {
    if ReadFrame(k, n, input) == Ok(r) {
      var pieces := FrameWasSent(k, n, input);
      assert SentAs(k, n, input, r, pieces);
    }
    if pieces :| SentAs(k, n, input, r, pieces) {
      FrameRoundTrip(k, n, input, pieces, r.rest);
    }
  }

  // ---------------------------------------------------------------------------------------------
  // Whole conversations
  // ---------------------------------------------------------------------------------------------

  /** Everything a writer sends for `frames`, each cut into pieces in its own way, from nonce `n` on. */
  function SentAll(k: SessionKey, n: nat, frames: seq<seq<Bytes>>): Bytes
    decreases |frames|
  {
    if frames == [] then []
    else Framed(k, n, |Flatten(frames[0])|, frames[0]) + SentAll(k, n + 1 + |frames[0]|, frames[1..])
  }

  function Contents(frames: seq<seq<Bytes>>): (r: seq<Bytes>)
    ensures |r| == |frames|
  {
    if frames == [] then [] else [Flatten(frames[0])] + Contents(frames[1..])
  }

  /** The nonce that follows `frames`. */
  function NonceAfter(n: nat, frames: seq<seq<Bytes>>): (r: nat)
    ensures r >= n
    decreases |frames|
  {
    if frames == [] then n else NonceAfter(n + 1 + |frames[0]|, frames[1..])
  }

  /** `count` frames in a row. */
  function ReadFrames(k: SessionKey, n: nat, input: Bytes, count: nat): Result<(seq<Bytes>, nat, Bytes)>
    decreases count
  {
    if count == 0 then Ok(([], n, input))
    else
      var first :- ReadFrame(k, n, input);
      var rest :- ReadFrames(k, first.nonce, first.rest, count - 1);
      Ok(([first.data] + rest.0, rest.1, rest.2))
  }

  ghost predicate SendableFrame(pieces: seq<Bytes>) {
    |Flatten(pieces)| <= MAX_FRAME && forall p :: p in pieces ==> Sendable(p)
  }

  lemma ReadOneMore(k: SessionKey, n: nat, input: Bytes, r: Reading, count: nat, tail: seq<Bytes>, nonce: nat, rest: Bytes)
    requires ReadFrame(k, n, input) == Ok(r)
    requires ReadFrames(k, r.nonce, r.rest, count) == Ok((tail, nonce, rest))
    ensures ReadFrames(k, n, input, count + 1) == Ok(([r.data] + tail, nonce, rest))
  {
  }

  lemma SentAllStep(k: SessionKey, n: nat, frames: seq<seq<Bytes>>, rest: Bytes)
    requires frames != []
    ensures SentAll(k, n, frames) + rest
         == Framed(k, n, |Flatten(frames[0])|, frames[0]) + (SentAll(k, n + 1 + |frames[0]|, frames[1..]) + rest)
  {
    ConcatAssociates(Framed(k, n, |Flatten(frames[0])|, frames[0]), SentAll(k, n + 1 + |frames[0]|, frames[1..]), rest);
  }

  /** Writing any frames, however they are cut, and reading as many gives their contents back, consumes
      exactly what was written, and leaves the reader's nonce where the writer's is. */
  lemma {:induction false} ConversationRoundTrip(k: SessionKey, n: nat, input: Bytes, frames: seq<seq<Bytes>>, rest: Bytes)
    requires Aead() && NonceAfter(n, frames) <= NONCE_LIMIT
    requires forall f :: f in frames ==> SendableFrame(f)
    requires input == SentAll(k, n, frames) + rest
    ensures ReadFrames(k, n, input, |frames|) == Ok((Contents(frames), NonceAfter(n, frames), rest))
    decreases |frames|
  {
    if frames == [] {
      assert input == rest;
    } else {
      var f, n', tail := frames[0], n + 1 + |frames[0]|, frames[1..];
      var more := SentAll(k, n', tail) + rest;
      assert SendableFrame(f);
      SentAllStep(k, n, frames, rest);
      ConversationRoundTrip(k, n', more, tail, rest);
      FirstFrame(k, n, input, f, more);
      ReadOneMore(k, n, input, Reading(Flatten(f), n', more), |tail|, Contents(tail), NonceAfter(n', tail), rest);
    }
  }

  lemma FirstFrame(k: SessionKey, n: nat, input: Bytes, f: seq<Bytes>, more: Bytes)
    requires Aead() && SendableFrame(f) && n + 1 + |f| <= NONCE_LIMIT
    requires input == Framed(k, n, |Flatten(f)|, f) + more
    ensures ReadFrame(k, n, input) == Ok(Reading(Flatten(f), n + 1 + |f|, more))
  {
    FrameRoundTrip(k, n, input, f, more);
  }

  /** The frames `write_frame` cuts payloads into. */
  function CutAll(payloads: seq<Bytes>): (r: seq<seq<Bytes>>)
    ensures |r| == |payloads|
  {
    if payloads == [] then [] else [Chunks(payloads[0])] + CutAll(payloads[1..])
  }

  lemma {:induction false} CutAllAddsUp(payloads: seq<Bytes>)
    ensures Contents(CutAll(payloads)) == payloads
  {
    if payloads != [] {
      ChunksAddUp(payloads[0]);
      CutAllAddsUp(payloads[1..]);
      assert CutAll(payloads)[1..] == CutAll(payloads[1..]);
      assert payloads == [payloads[0]] + payloads[1..];
    }
  }

  lemma {:induction false} CutAllAt(payloads: seq<Bytes>, i: nat)
    requires i < |payloads|
    ensures CutAll(payloads)[i] == Chunks(payloads[i])
  {
    if i > 0 {
      CutAllAt(payloads[1..], i - 1);
    }
  }

  lemma CutFramesSendable(payloads: seq<Bytes>)
    requires forall p :: p in payloads ==> |p| <= MAX_FRAME
    ensures forall f :: f in CutAll(payloads) ==> SendableFrame(f)
  {
    forall i | 0 <= i < |payloads| ensures SendableFrame(CutAll(payloads)[i]) {
      CutAllAt(payloads, i);
      ChunksAddUp(payloads[i]);
    }
  }

  /** The same for the frames `write_frame` makes: any payloads within the frame cap come back. */
  lemma PayloadsRoundTrip(k: SessionKey, n: nat, payloads: seq<Bytes>, rest: Bytes)
    requires Aead() && NonceAfter(n, CutAll(payloads)) <= NONCE_LIMIT
    requires forall p :: p in payloads ==> |p| <= MAX_FRAME
    ensures ReadFrames(k, n, SentAll(k, n, CutAll(payloads)) + rest, |payloads|)
         == Ok((payloads, NonceAfter(n, CutAll(payloads)), rest))
  {
    CutAllAddsUp(payloads);
    CutFramesSendable(payloads);
    ConversationRoundTrip(k, n, SentAll(k, n, CutAll(payloads)) + rest, CutAll(payloads), rest);
  }
}
