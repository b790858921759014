/** Plaintext frames and the server's side of a connection (`PlainStream`, `serve_conn`). */
module Serve {
  import opened Core
  import opened LittleEndian
  import opened Storage
  import opened Wire
  import opened Secure

  const SLICE := 256 * 1024

  /** "SFAB". */
  const PROTO_MAGIC: Bytes := [0x53, 0x46, 0x41, 0x42]
  const PROTO_VERSION: byte := 2
  const MODE_NOISE: byte := 1

  /** A plaintext frame.  The length is written as 32 bits, whatever the payload's size. */
  function PlainFrame(payload: Bytes): Bytes {
    LE32(|payload| % 0x1_0000_0000) + payload
  }

  function ReadPlain(input: Bytes): Result<(Bytes, Bytes)> {
    var head :- ReadExact(input, 4);
    var len := FromLE(head.0);
    if len > MAX_FRAME then Err(TooLarge) else ReadExact(head.1, len)
  }

  /** The reference: read a frame, answer it, until something is wrong or a frame is empty. */
  ghost function Conversation(d: Disk, input: Bytes): Bytes
    decreases |input|
  {
    var frame := ReadPlain(input);
    if frame.Err? || frame.value.0 == [] then []
    else
      var reply := RespondFrame(d, frame.value.0);
      if reply.Err? then [] else PlainFrame(reply.value) + Conversation(d, frame.value.1)
  }

  /** A plaintext reader takes exactly the payloads within the cap, the empty one included. */
  lemma ReadPlainMeans(input: Bytes, payload: Bytes, rest: Bytes)
    ensures ReadPlain(input) == Ok((payload, rest)) <==> |payload| <= 67_108_864 && input == LE32(|payload|) + payload + rest
  {
    if ReadPlain(input) == Ok((payload, rest)) {
      LE32Canonical(input[..4]);
      assert input[4..] == payload + rest;
      assert input == input[..4] + input[4..];
      ConcatAssociates(input[..4], payload, rest);
    } else if |payload| <= 67_108_864 && input == LE32(|payload|) + payload + rest {
      LengthFirst(payload, rest, input);
    }
  }

  lemma PlainRoundTrip(payload: Bytes, rest: Bytes)
    requires |payload| <= 67_108_864
    ensures ReadPlain(PlainFrame(payload) + rest) == Ok((payload, rest))
  {
    LengthFirst(payload, rest, PlainFrame(payload) + rest);
  }

  /** No legal first frame can be taken for the selector: its bytes spell a length over the cap. */
  lemma SelectorIsNoLength()
    ensures FromLE(PROTO_MAGIC) > 67_108_864
  {
    assert PROTO_MAGIC[1..] == [0x46, 0x41, 0x42] && PROTO_MAGIC[1..][1..] == [0x41, 0x42];
    assert FromLE([0x42]) == 0x42 by { assert [0x42][1..] == []; }
    assert FromLE([0x41, 0x42]) == 0x41 + 256 * 0x42 by { assert [0x41, 0x42][1..] == [0x42]; }
    assert FromLE(PROTO_MAGIC) == 0x53 + 256 * FromLE([0x46, 0x41, 0x42]);
  }

  datatype Served = Plain | Upgraded

  class Connection {
    var input: Bytes
    var output: Bytes

    constructor (input: Bytes)
      ensures this.input == input && output == []
    {
      this.input, output := input, [];
    }

    method Read(n: nat) returns (r: Result<Bytes>)
      modifies this`input
      ensures r.Ok? ==> ReadExact(old(input), n) == Ok((r.value, input))
      ensures r.Err? ==> ReadExact(old(input), n).Err? && input == old(input)
    {
      if |input| < n {
        return Err(Io);
      }
      r := Ok(input[..n]);
      input := input[n..];
    }

    /** `PlainStream::read_frame`: slice by slice, so that a claimed length reserves little. */
    method ReadFrame() returns (r: Result<Bytes>)
      modifies this`input
      ensures r.Ok? ==> ReadPlain(old(input)) == Ok((r.value, input))
      ensures r.Err? ==> ReadPlain(old(input)).Err?
    {
      var head :- Read(4);
      var len := FromLE(head);
      if len > MAX_FRAME {
        return Err(TooLarge);
      }
      ghost var start := input;
      var buf: Bytes := [];
      var remaining := len;
      while remaining > 0
        invariant 0 <= remaining <= len && |buf| == len - remaining
        invariant buf + input == start
      {
        var n := if remaining < SLICE then remaining else SLICE;
        ghost var before := input;
        var slice := Read(n);
        if slice.Err? {
          assert |start| < len;
          return Err(slice.error);
        }
        assert before == slice.value + input;
        ConcatAssociates(buf, slice.value, input);
        buf := buf + slice.value;
        remaining := remaining - n;
      }
      assert start[..len] == buf && start[len..] == input;
      return Ok(buf);
    }

    /** Answer one request on the plaintext transport. */
    method Respond(d: Disk, frame: Bytes) returns (r: Result<()>)
      modifies this`output
      ensures r.Ok? <==> RespondFrame(d, frame).Ok?
      ensures output == old(output) + if r.Ok? then PlainFrame(RespondFrame(d, frame).value) else []
    {
      var reply := RespondFrame(d, frame);
      if reply.Err? {
        return Err(reply.error);
      }
      output := output + PlainFrame(reply.value);
      return Ok(());
    }

    /** The request loop. */
    method Loop(d: Disk)
      modifies this
      ensures output == old(output) + Conversation(d, old(input))
    {
      ghost var target := output + Conversation(d, input);
      var going := true;
      while going
        invariant output + (if going then Conversation(d, input) else []) == target
        decreases going, |input|
      {
        ghost var before, sent := input, output;
        var frame := ReadFrame();
        if frame.Err? || frame.value == [] {
          going := false;
        } else {
          var answered := Respond(d, frame.value);
          if answered.Err? {
            going := false;
          } else {
            ConcatAssociates(sent, PlainFrame(RespondFrame(d, frame.value).value), Conversation(d, input));
          }
        }
      }
    }

    /** One connection.  `secured` says whether the listener has a key; the handshake that follows an
        accepted selector is not part of this model. */
    method Serve(d: Disk, secured: bool) returns (r: Result<Served>)
      modifies this
      ensures !secured ==> output == old(output) + Conversation(d, old(input))
      ensures secured ==> output == old(output) && (r.Ok? <==> [0x53, 0x46, 0x41, 0x42, 2, 1] <= old(input))
      ensures secured && r.Ok? ==> r.value == Upgraded && old(input) == [0x53, 0x46, 0x41, 0x42, 2, 1] + input
      ensures !secured && r.Ok? ==> r.value == Plain
    {
      SelectorIsNoLength();
      ghost var start := input;
      var magic :- Read(4);
      if magic == PROTO_MAGIC {
        var mode :- Read(2);
        if mode[0] != PROTO_VERSION || mode[1] != MODE_NOISE {
          return Err(Protocol);
        }
        if !secured {
          return Err(Protocol);
        }
        return Ok(Upgraded);
      }
      if secured {
        return Err(Protocol);
      }
      var len := FromLE(magic);
      if len == 0 || len > MAX_FRAME {
        return Err(Protocol);
      }
      var first :- Read(len);
      assert ReadPlain(start) == Ok((first, input));
      ghost var sent, rest := output, input;
      var answered :- Respond(d, first);
      Loop(d);
      ConcatAssociates(sent, PlainFrame(RespondFrame(d, first).value), Conversation(d, rest));
      return Ok(Plain);
    }
  }
}
