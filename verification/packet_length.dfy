/** The new-format packet length header of section 4.2.2 of RFC 4880, as
    session.go encodes it (`encodedLength`), and a decoder written from the
    RFC's own reading rules to check the encoder against. */
module PacketLength {
  import opened Wrappers
  import opened Octets

  const TwoOctetThreshold: nat := 192
  const FiveOctetThreshold: nat := 8384
  const FiveOctetMarker: byte := 255
  const TwoTo32: nat := 0x1_0000_0000

  /** Big-endian value of four octets (section 3.1 of RFC 4880). */
  function BigEndian32(b1: byte, b2: byte, b3: byte, b4: byte): (v: nat)
    ensures v < TwoTo32
  {
    ((b1 * 256 + b2) * 256 + b3) * 256 + b4
  }

  /** Octet k (0 = most significant) of the 32-bit big-endian form of n. */
  lemma {:induction false} SplitBigEndian(n: nat)
    ensures BigEndian32(Byte(n / 0x100_0000), Byte(n / 0x1_0000), Byte(n / 0x100), Byte(n)) == n % TwoTo32
  {
    var q1, q2, q3 := n / 0x100, n / 0x1_0000, n / 0x100_0000;
    assert q2 == q1 / 256 && q3 == q2 / 256;
    var r0, r1, r2, r3 := n % 256, q1 % 256, q2 % 256, q3 % 256;
    assert n == q1 * 256 + r0;
    assert q1 == q2 * 256 + r1;
    assert q2 == q3 * 256 + r2;
    assert q3 == (q3 / 256) * 256 + r3;
    calc {
      ((r3 * 256 + r2) * 256 + r1) * 256 + r0;
      ==
      (((q3 - (q3 / 256) * 256) * 256 + r2) * 256 + r1) * 256 + r0;
      ==
      ((q2 - (q3 / 256) * 0x1_0000) * 256 + r1) * 256 + r0;
      ==
      (q1 - (q3 / 256) * 0x100_0000) * 256 + r0;
      ==
      n - (q3 / 256) * TwoTo32;
    }
    assert n / TwoTo32 == q3 / 256;
  }

  /** session.go `encodedLength`: one, two or five octets. Go's `byte(...)`
      conversions are written out, so a length of 2^32 or more is truncated
      to its low 32 bits exactly as the source does. */
  function EncodedLength(length: nat): (b: seq<byte>)
    ensures |b| == 1 <==> length < TwoOctetThreshold
    ensures |b| == 2 <==> TwoOctetThreshold <= length < FiveOctetThreshold
    ensures |b| == 5 <==> FiveOctetThreshold <= length
    ensures |b| == 1 ==> b[0] == length
    ensures |b| == 2 ==> 192 <= b[0] <= 223 && (b[0] as int - 192) * 256 + b[1] as int + 192 == length
    ensures |b| == 5 ==> b[0] == FiveOctetMarker && BigEndian32(b[1], b[2], b[3], b[4]) == length % TwoTo32
  {
    if length < TwoOctetThreshold then
      [Byte(length)]
    else if length < FiveOctetThreshold then
      var l := length - 192;
      [Byte(192 + Byte(l / 256)), Byte(l)]
    else
      SplitBigEndian(length);
      [FiveOctetMarker, Byte(length / 0x100_0000), Byte(length / 0x1_0000), Byte(length / 0x100), Byte(length)]
  }

  /** Reading a body length per sections 4.2.2.1 to 4.2.2.3 of RFC 4880:
      the body length and the number of header octets consumed. A first octet
      in 224..254 announces a partial body length (section 4.2.2.4), which is
      not a definite length, and a header cut short is malformed: both None. */
  function DecodeLength(s: seq<byte>): (r: Option<(nat, nat)>)
    ensures r.Some? ==> 1 <= r.value.1 <= |s|
    ensures r.Some? ==> r.value.0 < TwoTo32
  {
    if |s| == 0 then None
    else if s[0] < 192 then Some((s[0], 1))
    else if s[0] < 224 then
      if |s| < 2 then None else Some(((s[0] as int - 192) * 256 + s[1] as int + 192, 2))
    else if s[0] == 255 then
      if |s| < 5 then None else Some((BigEndian32(s[1], s[2], s[3], s[4]), 5))
    else None
  }

  /** A reader of RFC 4880 recovers every 32-bit length from its encoding,
      whatever follows the header. */
  lemma EncodedLengthRoundTrip(n: nat, rest: seq<byte>)
    requires n < TwoTo32
    ensures DecodeLength(EncodedLength(n) + rest) == Some((n, |EncodedLength(n)|))
  {
    var b := EncodedLength(n);
    assert (b + rest)[..|b|] == b;
  }

  /** A length of 2^32 or more does not survive: Go's truncation keeps only
      the low 32 bits, so the header announces the length modulo 2^32. */
  lemma EncodedLengthTruncates(n: nat, rest: seq<byte>)
    requires n >= TwoTo32
    ensures DecodeLength(EncodedLength(n) + rest) == Some((n % TwoTo32, 5))
  {
    var b := EncodedLength(n);
    assert (b + rest)[..5] == b;
  }

  /** The other direction: a header in the shortest form for its length is
      exactly what the encoder writes for the decoded length. */
  lemma {:induction false} DecodedLengthReencodes(s: seq<byte>)
    requires DecodeLength(s).Some?
    requires DecodeLength(s).value.1 == 5 ==> DecodeLength(s).value.0 >= FiveOctetThreshold
    ensures EncodedLength(DecodeLength(s).value.0) == s[..DecodeLength(s).value.1]
  {
    var (n, k) := DecodeLength(s).value;
    var b := EncodedLength(n);
    if k == 1 {
      assert b == [s[0]];
    } else if k == 2 {
      assert |b| == 2;
      BaseDigitsUnique(b[0] as int - 192, b[1], s[0] as int - 192, s[1]);
      assert b == s[..2];
    } else {
      assert |b| == 5;
      BigEndianUnique(b[1], b[2], b[3], b[4], s[1], s[2], s[3], s[4]);
      assert b == s[..5];
    }
  }

  lemma BaseDigitsUnique(h1: int, l1: byte, h2: int, l2: byte)
    requires h1 * 256 + l1 == h2 * 256 + l2
    ensures h1 == h2 && l1 == l2
  {
  }

  lemma BigEndianUnique(a1: byte, a2: byte, a3: byte, a4: byte, b1: byte, b2: byte, b3: byte, b4: byte)
    requires BigEndian32(a1, a2, a3, a4) == BigEndian32(b1, b2, b3, b4)
    ensures a1 == b1 && a2 == b2 && a3 == b3 && a4 == b4
  {
    BaseDigitsUnique((a1 as int * 256 + a2) * 256 + a3, a4, (b1 as int * 256 + b2) * 256 + b3, b4);
    BaseDigitsUnique(a1 as int * 256 + a2, a3, b1 as int * 256 + b2, b3);
    BaseDigitsUnique(a1, a2, b1, b2);
  }

  /** The encoder is injective on 32-bit lengths and no encoding is a proper
      prefix of another, so a reader never confuses two lengths. */
  lemma EncodedLengthInjective(m: nat, n: nat, restM: seq<byte>, restN: seq<byte>)
    requires m < TwoTo32 && n < TwoTo32
    requires EncodedLength(m) + restM == EncodedLength(n) + restN
    ensures m == n
  {
    EncodedLengthRoundTrip(m, restM);
    EncodedLengthRoundTrip(n, restN);
  }

  /** The boundary values at both thresholds. */
  lemma EncodedLengthBoundaries()
    ensures EncodedLength(0) == [0]
    ensures EncodedLength(191) == [191]
    ensures EncodedLength(192) == [192, 0]
    ensures EncodedLength(8383) == [223, 255]
    ensures EncodedLength(8384) == [255, 0, 0, 32, 192]
  {
  }
}
