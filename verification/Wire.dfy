/** The sync wire protocol (`respond_frame`, `frame_payload`). */
module Wire {
  import opened Core
  import opened LittleEndian
  import opened Storage

  const MAX_FRAME := 64 * 1024 * 1024

  const OP_GET_HEAD: byte := 1
  const OP_GET_MANIFEST: byte := 2
  const OP_HAVE: byte := 3
  const OP_GET_OBJECT: byte := 4

  /** A hash as its 32 bytes. */
  const EncodeHash: Hash -> Bytes
  const DecodeHash: Bytes -> Hash

  /** The encoding of `h` has 32 bytes and can be read back.  This is only ever asked of hashes that some
      disk mentions: no 32-byte code could serve infinitely many. */
  ghost predicate Coded(h: Hash) {
    |EncodeHash(h)| == 32 && DecodeHash(EncodeHash(h)) == h
  }

  /** A payload behind its 64-bit length. */
  function Sized(data: Bytes): Bytes {
    LE64(|data|) + data
  }

  /** `frame_payload`: bounds-checked, whatever the length field claims. */
  function FramePayload(frame: Bytes): Result<Bytes> {
    if |frame| < 8 then Err(Protocol)
    else
      var len := FromLE(frame[..8]);
      if len == 0 then Ok([])
      else if len > |frame| - 8 then Err(Protocol)
      else Ok(frame[8..8 + len])
  }

  /** A request frame in, response bytes out. */
  function RespondFrame(d: Disk, frame: Bytes): Result<Bytes> {
    if frame == [] then Err(Protocol)
    else if frame[0] == OP_GET_HEAD then
      Ok(if d.head.Some? then [1] + EncodeHash(d.head.value) else [0])
    else if frame[0] == OP_GET_MANIFEST && |frame| == 33 then
      var h := DecodeHash(frame[1..]);
      Ok(Sized(if h in d.manifests then d.manifests[h] else []))
    else if frame[0] == OP_HAVE && |frame| >= 5 then
      var n := FromLE(frame[1..5]);
      if |frame| != 5 + n * 32 then Err(Protocol)
      else Ok(HaveBits(d.objects, frame[5..], n))
    else if frame[0] == OP_GET_OBJECT && |frame| == 33 then
      var data := ReadObject(d.objects, DecodeHash(frame[1..]));
      Ok(Sized(if data.Ok? then data.value else []))
    else Err(Protocol)
  }

  function HaveBits(objects: map<Hash, Bytes>, hashes: Bytes, n: nat): (r: Bytes)
    requires |hashes| == n * 32
    ensures |r| == n
    ensures forall i :: 0 <= i < n ==> r[i] == if DecodeHash(hashes[i * 32..(i + 1) * 32]) in objects then 1 else 0
  {
    seq(n, i requires 0 <= i < n => if DecodeHash(hashes[i * 32..(i + 1) * 32]) in objects then 1 else 0)
  }

  // ---------------------------------------------------------------------------------------------
  // Requests, and the answers a store gives to them
  // ---------------------------------------------------------------------------------------------

  function GetManifest(h: Hash): Bytes { [OP_GET_MANIFEST] + EncodeHash(h) }

  function GetObject(h: Hash): Bytes { [OP_GET_OBJECT] + EncodeHash(h) }

  function Hashes(hs: seq<Hash>): Bytes {
    if hs == [] then [] else Hashes(hs[..|hs| - 1]) + EncodeHash(hs[|hs| - 1])
  }

  function Have(hs: seq<Hash>): Bytes { [OP_HAVE] + LE32(|hs|) + Hashes(hs) }

  lemma PayloadOfSized(data: Bytes)
    requires |data| < 0x1_0000_0000_0000_0000
    ensures FramePayload(Sized(data)) == Ok(data)
  {
    LE64RoundTrip(|data|);
    assert Sized(data)[..8] == LE64(|data|) && Sized(data)[8..8 + |data|] == data;
  }

  lemma RespondsManifest(d: Disk, h: Hash)
    requires Coded(h)
    ensures RespondFrame(d, GetManifest(h)) == Ok(Sized(if h in d.manifests then d.manifests[h] else []))
  {
    assert GetManifest(h)[1..] == EncodeHash(h);
  }

  lemma RespondsObject(d: Disk, h: Hash)
    requires Coded(h)
    ensures RespondFrame(d, GetObject(h)) ==
            Ok(Sized(if ReadObject(d.objects, h).Ok? then ReadObject(d.objects, h).value else []))
  {
    assert GetObject(h)[1..] == EncodeHash(h);
  }

  /** The reader takes exactly what begins with a sized payload. */
  lemma PayloadMeans(frame: Bytes, data: Bytes)
    requires |data| < 0x1_0000_0000_0000_0000
    ensures FramePayload(frame) == Ok(data) <==> Sized(data) <= frame
  {
    if Sized(data) <= frame {
      assert frame[..8] == LE64(|data|) && frame[8..8 + |data|] == data;
      LE64RoundTrip(|data|);
    }
    if FramePayload(frame) == Ok(data) {
      Canonical(frame[..8]);
      assert frame[..8 + |data|] == frame[..8] + data;
    }
  }

  /** The requests a client sends, by opcode. */
  lemma RequestBytes(h: Hash, hs: seq<Hash>)
    requires |hs| < 0x1_0000_0000
    ensures GetManifest(h) == [2] + EncodeHash(h) && GetObject(h) == [4] + EncodeHash(h)
    ensures Have(hs)[..1] == [3] && Spelled(Have(hs)[1..5]) == |hs| && Have(hs)[5..] == Hashes(hs)
  {
    LE32Means(|hs|, LE32(|hs|));
    assert Have(hs)[1..5] == LE32(|hs|);
  }

  /** What a responder makes of any frame at all: the four requests are told by their first byte, and all but
      the first must have just the length they call for. */
  lemma ResponderMeans(d: Disk, frame: Bytes)
    ensures frame == [] || frame[0] < 1 || frame[0] > 4 ==> RespondFrame(d, frame).Err?
    ensures frame != [] && frame[0] == 1 ==>
              RespondFrame(d, frame) == Ok(if d.head.Some? then [1] + EncodeHash(d.head.value) else [0])
    ensures frame != [] && (frame[0] == 2 || frame[0] == 4) ==> (RespondFrame(d, frame).Ok? <==> |frame| == 33)
    ensures frame != [] && frame[0] == 3 ==>
              (RespondFrame(d, frame).Ok? <==> |frame| >= 5 && |frame| == 5 + 32 * Spelled(frame[1..5]))
  {
    if |frame| >= 5 {
      FourBytes(frame[1..5]);
    }
  }

  lemma {:induction false} HashesAt(hs: seq<Hash>, i: nat)
    requires forall h :: h in hs ==> Coded(h)
    ensures |Hashes(hs)| == |hs| * 32
    ensures i < |hs| ==> Hashes(hs)[i * 32..(i + 1) * 32] == EncodeHash(hs[i])
  {
    if hs != [] {
      var init := hs[..|hs| - 1];
      assert Coded(hs[|hs| - 1]);
      HashesAt(init, i);
      if i < |init| {
        assert Hashes(hs)[i * 32..(i + 1) * 32] == Hashes(init)[i * 32..(i + 1) * 32];
      }
    }
  }

  /** A HAVE request is answered hash by hash. */
  lemma RespondsHave(d: Disk, hs: seq<Hash>)
    requires (forall h :: h in hs ==> Coded(h)) && |hs| < 0x1_0000_0000
    ensures var r := RespondFrame(d, Have(hs));
            r.Ok? && |r.value| == |hs| && forall i :: 0 <= i < |hs| ==> (r.value[i] == 1 <==> hs[i] in d.objects)
  {
    var frame := Have(hs);
    LE32RoundTrip(|hs|);
    HashesAt(hs, 0);
    assert frame[1..5] == LE32(|hs|) && frame[5..] == Hashes(hs);
    forall i | 0 <= i < |hs|
      ensures RespondFrame(d, frame).value[i] == if hs[i] in d.objects then 1 else 0
    {
      assert hs[i] in hs;
      HashesAt(hs, i);
    }
  }
}
