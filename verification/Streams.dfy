/** The encrypted frame transport as an object: `SecureStream`. */
module Streams {
  import opened Core
  import opened LittleEndian
  import opened Wire
  import opened Secure

  class SecureStream {
    const sendKey: SessionKey
    const recvKey: SessionKey
    const buf: array<byte>
    var inbound: Bytes
    var outbound: Bytes
    var sendNonce: nat
    var recvNonce: nat

    ghost predicate Valid() {
      buf.Length == MSG_CAP
    }

    constructor (sendKey: SessionKey, recvKey: SessionKey, inbound: Bytes)
      ensures Valid() && fresh(buf)
      ensures this.sendKey == sendKey && this.recvKey == recvKey && this.inbound == inbound
      ensures outbound == [] && sendNonce == 0 && recvNonce == 0
    {
      this.sendKey, this.recvKey, this.inbound := sendKey, recvKey, inbound;
      outbound, sendNonce, recvNonce := [], 0, 0;
      buf := new byte[MSG_CAP];
    }

    /** Copy `data` to the front of the buffer. */
    method Fill(data: Bytes)
      requires Valid() && |data| <= buf.Length
      modifies buf
      ensures buf[..|data|] == data
    {
      forall i | 0 <= i < |data| {
        buf[i] := data[i];
      }
    }

    /** `write_message`: seal into the buffer and advance the nonce. */
    method SealMessage(p: Bytes) returns (r: Result<nat>)
      requires Valid()
      modifies buf, this`sendNonce
      ensures r.Ok? ==> r.value <= buf.Length && buf[..r.value] == Seal(sendKey, old(sendNonce), p)
      ensures sendNonce == if r.Ok? then old(sendNonce) + 1 else old(sendNonce)
      ensures Aead() && |p| + TAG <= MSG_CAP && old(sendNonce) < NONCE_LIMIT ==> r.Ok?
    {
      if sendNonce >= NONCE_LIMIT {
        return Err(Protocol);
      }
      var ct := Seal(sendKey, sendNonce, p);
      if |ct| > buf.Length || |ct| > NOISE_LIMIT {
        return Err(Protocol);
      }
      Fill(ct);
      sendNonce := sendNonce + 1;
      return Ok(|ct|);
    }

    /** `write_msg` on the front of the buffer. */
    method WriteMsg(n: nat) returns (r: Result<()>)
      requires Valid() && n <= buf.Length
      modifies this`outbound
      ensures r.Ok? && outbound == old(outbound) + Message(buf[..n])
    {
      if n > MSG_CAP {
        return Err(Protocol);
      }
      outbound := outbound + (LE32(n) + buf[..n]);
      return Ok(());
    }

    /** Seal and send one message. */
    method Send(p: Bytes) returns (r: Result<()>)
      requires Valid()
      modifies buf, this`sendNonce, this`outbound
      ensures r.Ok? ==> outbound == old(outbound) + Message(Seal(sendKey, old(sendNonce), p)) && sendNonce == old(sendNonce) + 1
      ensures Aead() && |p| + TAG <= MSG_CAP && old(sendNonce) < NONCE_LIMIT ==> r.Ok?
    {
      var n :- SealMessage(p);
      r := WriteMsg(n);
    }

    /** What is out and what is still to come from position `at` on add up to `target`. */
    ghost predicate Sending(payload: Bytes, at: nat, target: Bytes, last: nat)
      requires at <= |payload|
      reads this
    {
      && outbound + Sealed(sendKey, sendNonce, Chunks(payload[at..])) == target
      && sendNonce + |Chunks(payload[at..])| == last
    }

    /** Send the chunk at position `at`; where it ends. */
    method SendChunk(payload: Bytes, at: nat, ghost target: Bytes, ghost last: nat) returns (r: Result<nat>)
      requires Valid() && at < |payload| && Sending(payload, at, target, last)
      modifies buf, this`sendNonce, this`outbound
      ensures r.Ok? ==> at < r.value <= |payload| && Sending(payload, r.value, target, last)
      ensures Aead() && last <= NONCE_LIMIT ==> r.Ok?
    {
      var end := if at + PLAINTEXT_MSG < |payload| then at + PLAINTEXT_MSG else |payload|;
      ghost var before, nonce := outbound, sendNonce;
      ChunkOff(payload, at, end);
      var sent :- Send(payload[at..end]);
      SealedOff(sendKey, nonce, before, payload[at..end], Chunks(payload[end..]));
      return Ok(end);
    }

    /** Send the payload cut into chunks. */
    method SendChunks(payload: Bytes) returns (r: Result<()>)
      requires Valid()
      modifies buf, this`sendNonce, this`outbound
      ensures r.Ok? ==>
        && outbound == old(outbound) + Sealed(sendKey, old(sendNonce), Chunks(payload))
        && sendNonce == old(sendNonce) + |Chunks(payload)|
      ensures Aead() && old(sendNonce) + |Chunks(payload)| <= NONCE_LIMIT ==> r.Ok?
    {
      ghost var target, last := outbound + Sealed(sendKey, sendNonce, Chunks(payload)), sendNonce + |Chunks(payload)|;
      var at := 0;
      assert payload[0..] == payload;
      while at < |payload|
        invariant 0 <= at <= |payload| && Sending(payload, at, target, last)
      {
        at :- SendChunk(payload, at, target, last);
      }
      assert payload[at..] == [];
      return Ok(());
    }

    /** Send a frame: its length, then its chunks. */
    method WriteFrame(payload: Bytes) returns (r: Result<()>)
      requires Valid()
      modifies buf, this`sendNonce, this`outbound
      ensures r.Ok? ==>
        && |payload| <= 67_108_864
        && outbound == old(outbound) + Framed(sendKey, old(sendNonce), |payload|, Chunks(payload))
        && sendNonce == old(sendNonce) + 1 + |Chunks(payload)|
      ensures |payload| > 67_108_864 ==> r.Err? && outbound == old(outbound)
      ensures Aead() && |payload| <= 67_108_864 && old(sendNonce) + 1 + |Chunks(payload)| <= NONCE_LIMIT ==> r.Ok?
    {
      if |payload| > MAX_FRAME {
        return Err(TooLarge);
      }
      ghost var start, n := outbound, sendNonce;
      var header :- Send(LE32(|payload|));
      r := SendChunks(payload);
      ConcatAssociates(start, Message(Seal(sendKey, n, LE32(|payload|))), Sealed(sendKey, n + 1, Chunks(payload)));
    }

    /** Receive and open one message into the buffer; its length. */
    method Receive() returns (r: Result<nat>)
      requires Valid()
      modifies buf, this`recvNonce, this`inbound
      ensures r.Ok? <==> OpenNext(recvKey, old(recvNonce), old(inbound)).Ok?
      ensures r.Ok? ==>
        && r.value <= buf.Length && OpenNext(recvKey, old(recvNonce), old(inbound)) == Ok((buf[..r.value], inbound))
        && recvNonce == old(recvNonce) + 1
    {
      var msg :- ReadMsg(inbound, MSG_CAP);
      if recvNonce >= NONCE_LIMIT {
        return Err(Protocol);
      }
      var plain := Open(recvKey, recvNonce, msg.0);
      if plain.None? || |plain.value| > buf.Length {
        return Err(Protocol);
      }
      Fill(plain.value);
      inbound, recvNonce := msg.1, recvNonce + 1;
      return Ok(|plain.value|);
    }

    /** Messages until `length` bytes have come together, growing the result with what arrives. */
    method GatherMessages(length: nat) returns (r: Result<Bytes>)
      requires Valid()
      modifies buf, this`recvNonce, this`inbound
      ensures r.Ok? <==> Gather(recvKey, old(recvNonce), old(inbound), length).Ok?
      ensures r.Ok? ==> Gathers(recvKey, old(recvNonce), old(inbound), length, Reading(r.value, recvNonce, inbound))
    {
      ghost var whole := Gather(recvKey, recvNonce, inbound, length);
      var out: Bytes := [];
      while |out| < length
        invariant |out| <= length
        invariant Continues(whole, out, Gather(recvKey, recvNonce, inbound, length - |out|))
      {
        ghost var nonce, input := recvNonce, inbound;
        var got :- Receive();
        if |out| + got > length {
          return Err(Protocol);
        }
        if got == 0 {
          return Err(Protocol);
        }
        ContinuesOn(recvKey, whole, out, nonce, input, length - |out|, buf[..got], inbound);
        out := out + buf[..got];
      }
      assert out + [] == out;
      return Ok(out);
    }

    /** Read one frame. */
    method ReadFrame() returns (r: Result<Bytes>)
      requires Valid()
      modifies buf, this`recvNonce, this`inbound
      ensures r.Ok? <==> Secure.ReadFrame(recvKey, old(recvNonce), old(inbound)).Ok?
      ensures r.Ok? ==> Secure.ReadFrame(recvKey, old(recvNonce), old(inbound)) == Ok(Reading(r.value, recvNonce, inbound))
    {
      var n :- Receive();
      if n != 4 {
        return Err(Protocol);
      }
      var length := FromLE(buf[..n]);
      if length > MAX_FRAME {
        return Err(TooLarge);
      }
      r := GatherMessages(length);
    }
  }

  lemma ChunkOff(payload: Bytes, at: nat, end: nat)
    requires at < |payload| && end == if at + PLAINTEXT_MSG < |payload| then at + PLAINTEXT_MSG else |payload|
    ensures Chunks(payload[at..]) == [payload[at..end]] + Chunks(payload[end..])
    ensures 0 < |payload[at..end]| && |payload[at..end]| + TAG <= MSG_CAP
  {
    var rest := payload[at..];
    if end < |payload| {
      assert rest[..PLAINTEXT_MSG] == payload[at..end] && rest[PLAINTEXT_MSG..] == payload[end..];
    } else {
      assert payload[at..end] == rest && payload[end..] == [];
    }
  }

  lemma SealedOff(k: SessionKey, n: nat, before: Bytes, p: Bytes, more: seq<Bytes>)
    ensures before + Sealed(k, n, [p] + more) == (before + Message(Seal(k, n, p))) + Sealed(k, n + 1, more)
  {
    assert ([p] + more)[1..] == more;
    ConcatAssociates(before, Message(Seal(k, n, p)), Sealed(k, n + 1, more));
  }

  /** `whole` is what `out` becomes when the reading goes on as `rest` says. */
  ghost predicate Continues(whole: Result<Reading>, out: Bytes, rest: Result<Reading>) {
    (whole.Ok? <==> rest.Ok?) &&
    (whole.Ok? ==> whole.value == Reading(out + rest.value.data, rest.value.nonce, rest.value.rest))
  }

  lemma ContinuesOn(k: SessionKey, whole: Result<Reading>, out: Bytes, n: nat, input: Bytes, need: nat, p: Bytes, more: Bytes)
    requires Continues(whole, out, Gather(k, n, input, need)) && need > 0
    requires OpenNext(k, n, input) == Ok((p, more)) && 0 < |p| <= need
    ensures Continues(whole, out + p, Gather(k, n + 1, more, need - |p|))
  {
    var rest := Gather(k, n + 1, more, need - |p|);
    if rest.Ok? {
      ConcatAssociates(out, p, rest.value.data);
    }
  }
}
