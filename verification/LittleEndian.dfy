/** Little-endian integers on the wire. */
module LittleEndian {
  import opened Core

  function Pow256(k: nat): nat {
    if k == 0 then 1 else 256 * Pow256(k - 1)
  }

  function ToLE(n: nat, k: nat): (r: Bytes)
    ensures |r| == k
  {
    if k == 0 then [] else [n % 256] + ToLE(n / 256, k - 1)
  }

  function FromLE(b: Bytes): nat {
    if b == [] then 0 else b[0] + 256 * FromLE(b[1..])
  }

  lemma {:induction false} RoundTrip(n: nat, k: nat)
    requires n < Pow256(k)
    ensures FromLE(ToLE(n, k)) == n
  {
    if k > 0 {
      assert n / 256 < Pow256(k - 1);
      RoundTrip(n / 256, k - 1);
      assert ToLE(n, k)[1..] == ToLE(n / 256, k - 1);
    }
  }

  lemma Pow256s()
    ensures Pow256(4) == 0x1_0000_0000 && Pow256(8) == 0x1_0000_0000_0000_0000
  {
    assert Pow256(2) == 65536;
    assert Pow256(4) == 256 * (256 * Pow256(2));
    assert Pow256(6) == 256 * (256 * Pow256(4));
    assert Pow256(8) == 256 * (256 * Pow256(6));
  }

  const U32_BYTES: nat := 4
  const U64_BYTES: nat := 8

  function LE32(n: nat): (r: Bytes)
    ensures |r| == 4
  {
    ToLE(n, U32_BYTES)
  }

  function LE64(n: nat): (r: Bytes)
    ensures |r| == 8
  {
    ToLE(n, U64_BYTES)
  }

  lemma LE32RoundTrip(n: nat)
    requires n < 0x1_0000_0000
    ensures FromLE(LE32(n)) == n
  {
    Pow256s();
    RoundTrip(n, U32_BYTES);
  }

  lemma LE64RoundTrip(n: nat)
    requires n < 0x1_0000_0000_0000_0000
    ensures FromLE(LE64(n)) == n
  {
    Pow256s();
    RoundTrip(n, U64_BYTES);
  }

  /** Four length bytes in front of a payload come off again. */
  lemma LengthFirst(payload: Bytes, rest: Bytes, input: Bytes)
    requires |payload| < 0x1_0000_0000 && input == LE32(|payload|) + payload + rest
    ensures |input| >= 4 + |payload| && FromLE(input[..4]) == |payload|
    ensures input[4..][..|payload|] == payload && input[4..][|payload|..] == rest
  {
    LE32RoundTrip(|payload|);
    assert input[..4] == LE32(|payload|) && input[4..] == payload + rest;
  }

  lemma LowByte(b: byte, rest: nat)
    ensures (b + 256 * rest) % 256 == b && (b + 256 * rest) / 256 == rest
  {
  }

  lemma {:induction false} Canonical(b: Bytes)
    ensures FromLE(b) < Pow256(|b|)
    ensures ToLE(FromLE(b), |b|) == b
  {
    if b != [] {
      Canonical(b[1..]);
      LowByte(b[0], FromLE(b[1..]));
      assert ToLE(FromLE(b), |b|) == [b[0]] + ToLE(FromLE(b[1..]), |b| - 1);
      assert b == [b[0]] + b[1..];
    }
  }

  /** Four bytes are the encoding of the number they spell. */
  lemma LE32Canonical(b: Bytes)
    requires |b| == 4
    ensures LE32(FromLE(b)) == b && FromLE(b) < 0x1_0000_0000
  {
    Pow256s();
    Canonical(b);
  }

  /** What four bytes spell, the low one first. */
  ghost function Spelled(b: Bytes): nat
    requires |b| == 4
  {
    var b0: int, b1: int, b2: int, b3: int := b[0], b[1], b[2], b[3];
    b0 + 256 * b1 + 65_536 * b2 + 16_777_216 * b3
  }

  lemma FourOff(b: Bytes)
    requires |b| >= 4
    ensures FromLE(b) == Spelled(b[..4]) + 0x1_0000_0000 * FromLE(b[4..])
  {
    var c, d, e := b[1..], b[2..], b[3..];
    assert c[1..] == d && d[1..] == e && e[1..] == b[4..];
    assert FromLE(e) == b[3] + 256 * FromLE(b[4..]) && FromLE(d) == b[2] + 256 * FromLE(e);
  }

  lemma FourBytes(b: Bytes)
    requires |b| == 4
    ensures FromLE(b) == Spelled(b)
  {
    FourOff(b);
    assert b[..4] == b && b[4..] == [];
  }

  lemma EightBytes(b: Bytes)
    requires |b| == 8
    ensures FromLE(b) == Spelled(b[..4]) + 0x1_0000_0000 * Spelled(b[4..])
  {
    FourOff(b);
    FourBytes(b[4..]);
  }

  /** The four length bytes of a frame and the eight of a payload. */
  lemma LE32Means(n: nat, b: Bytes)
    requires n < 0x1_0000_0000
    ensures LE32(n) == b <==> |b| == 4 && n == Spelled(b)
  {
    LE32RoundTrip(n);
    if |b| == 4 {
      FourBytes(b);
      LE32Canonical(b);
    }
  }

  lemma LE64Means(n: nat, b: Bytes)
    requires n < 0x1_0000_0000_0000_0000
    ensures LE64(n) == b <==> |b| == 8 && n == Spelled(b[..4]) + 0x1_0000_0000 * Spelled(b[4..])
  {
    LE64RoundTrip(n);
    if |b| == 8 {
      EightBytes(b);
      Pow256s();
      Canonical(b);
    }
  }
}
