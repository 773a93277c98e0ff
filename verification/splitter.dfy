/** `SeparateKeyAndData`: walk a message's packets, keep one encrypted key
    packet and re-frame the symmetrically encrypted data packet as a
    Symmetrically Encrypted Integrity Protected Data packet. */
module Splitter {
  import opened Wrappers
  import opened Octets
  import opened PacketLength
  import opened Packets

  /** New-format packet header (section 4.2 of RFC 4880: bits 7 and 6 set)
      for tag 18, Symmetrically Encrypted Integrity Protected Data. */
  const SeipdHeader: byte := 210
  const SeipdTag: nat := 18
  /** The version octet of section 5.13 of RFC 4880. */
  const SeipdVersion: byte := 1

  /** The re-framed data packet for the given contents. */
  function FrameData(contents: seq<byte>): (d: seq<byte>)
    ensures |d| == |contents| + 2 + |EncodedLength(|contents| + 1)|
    ensures d[0] == SeipdHeader
    ensures d[|d| - |contents|..] == contents
    ensures d[|d| - |contents| - 1] == SeipdVersion
  {
    [SeipdHeader] + EncodedLength(|contents| + 1) + [SeipdVersion] + contents
  }

  /** The frame is self-describing for contents under 4 GiB: the header
      octet is a new-format header of tag 18, the length it announces is the
      number of octets that follow the length field (version plus contents),
      and the version octet comes first in the body. */
  lemma FrameDataIsWellFormed(contents: seq<byte>)
    requires |contents| + 1 < TwoTo32
    ensures FrameData(contents)[0] / 64 == 3 && FrameData(contents)[0] % 64 == SeipdTag
    ensures DecodeLength(FrameData(contents)[1..]).Some?
    ensures var (n, h) := DecodeLength(FrameData(contents)[1..]).value;
            n == |contents| + 1 && |FrameData(contents)| == 1 + h + n && FrameData(contents)[1 + h] == SeipdVersion
  {
    var d := FrameData(contents);
    var header := EncodedLength(|contents| + 1);
    assert d[1..] == header + ([SeipdVersion] + contents);
    EncodedLengthRoundTrip(|contents| + 1, [SeipdVersion] + contents);
  }

  /** Contents of 8000 octets take the two-octet tier: the announced body
      length is 8001. */
  lemma FrameDataTwoOctetExample(contents: seq<byte>)
    requires |contents| == 8000
    ensures FrameData(contents)[..4] == [210, 222, 129, 1]
    ensures DecodeLength(FrameData(contents)[1..]) == Some((8001, 2))
  {
    FrameDataIsWellFormed(contents);
    assert EncodedLength(8001) == [222, 129];
  }

  /** The loop's rule for an encrypted key packet (lines 333-336): keep the
      current one if it already carries a key, otherwise take the new one. */
  function Retain(current: Option<EncryptedKey>, p: Packet): Option<EncryptedKey> {
    if p.EncryptedKeyPacket? && !(current.Some? && current.value.key.Some?) then Some(p.ek) else current
  }

  /** The key packet retained after the given packets. */
  function RetainedKey(packets: seq<Packet>): Option<EncryptedKey> {
    if packets == [] then None
    else Retain(RetainedKey(packets[..|packets| - 1]), packets[|packets| - 1])
  }

  /** The contents of the last data packet among the given packets. */
  function LastData(packets: seq<Packet>): Option<seq<byte>> {
    if packets == [] then None
    else if packets[|packets| - 1].SymEncrypted? then Some(packets[|packets| - 1].contents)
    else LastData(packets[..|packets| - 1])
  }

  /** `outSplit.DataPacket` after the given packets: nil when no data packet
      was seen. */
  function DataPacketOf(packets: seq<Packet>): seq<byte> {
    match LastData(packets)
    case None => []
    case Some(c) => FrameData(c)
  }

  /** A retained key packet that carries a key is never replaced by a later
      packet. */
  lemma {:induction false} KeyBearingPacketIsKept(packets: seq<Packet>, i: nat, k: EncryptedKey)
    requires i <= |packets|
    requires RetainedKey(packets[..i]) == Some(k) && k.key.Some?
    ensures RetainedKey(packets) == Some(k)
    decreases |packets| - i
  {
    if i < |packets| {
      assert packets[..i + 1][..i] == packets[..i];
      KeyBearingPacketIsKept(packets, i + 1, k);
    } else {
      assert packets[..i] == packets;
    }
  }

  /** The retained packet is always one of the stream's key packets, and
      there is one exactly when the stream holds a key packet. */
  lemma {:induction false} RetainedKeyIsFromStream(packets: seq<Packet>)
    ensures RetainedKey(packets).Some? ==> EncryptedKeyPacket(RetainedKey(packets).value) in packets
    ensures RetainedKey(packets).None? <==> forall i :: 0 <= i < |packets| ==> !packets[i].EncryptedKeyPacket?
  {
    if packets != [] {
      var init := packets[..|packets| - 1];
      RetainedKeyIsFromStream(init);
      assert packets == init + [packets[|packets| - 1]];
      assert forall i :: 0 <= i < |init| ==> packets[i] == init[i];
    }
  }

  /** The first key packet that carries a key is the one retained; the ones
      before it, having no key, are each replaced by the next. */
  lemma {:induction false} FirstKeyBearingPacketWins(packets: seq<Packet>, i: nat)
    requires i < |packets| && packets[i].EncryptedKeyPacket? && packets[i].ek.key.Some?
    requires forall j :: 0 <= j < i ==> !(packets[j].EncryptedKeyPacket? && packets[j].ek.key.Some?)
    ensures RetainedKey(packets) == Some(packets[i].ek)
  {
    NoKeyBearingBefore(packets[..i]);
    assert packets[..i + 1][..i] == packets[..i];
    KeyBearingPacketIsKept(packets, i + 1, packets[i].ek);
  }

  lemma {:induction false} NoKeyBearingBefore(packets: seq<Packet>)
    requires forall j :: 0 <= j < |packets| ==> !(packets[j].EncryptedKeyPacket? && packets[j].ek.key.Some?)
    ensures RetainedKey(packets).Some? ==> RetainedKey(packets).value.key.None?
  {
    if packets != [] {
      NoKeyBearingBefore(packets[..|packets| - 1]);
    }
  }

  /** When no key packet carries a key, as with packets straight from the
      parser, the last key packet of the stream is the one retained. */
  lemma {:induction false} LastKeylessPacketWins(packets: seq<Packet>, i: nat)
    requires forall j :: 0 <= j < |packets| ==> !(packets[j].EncryptedKeyPacket? && packets[j].ek.key.Some?)
    requires i < |packets| && packets[i].EncryptedKeyPacket?
    requires forall j :: i < j < |packets| ==> !packets[j].EncryptedKeyPacket?
    ensures RetainedKey(packets) == Some(packets[i].ek)
    decreases |packets|
  {
    var init := packets[..|packets| - 1];
    if i < |packets| - 1 {
      LastKeylessPacketWins(init, i);
    } else {
      NoKeyBearingBefore(init);
    }
  }

  /** The last data packet of the stream is the one kept. */
  lemma {:induction false} LastDataPacketWins(packets: seq<Packet>)
    ensures LastData(packets).None? <==> forall i :: 0 <= i < |packets| ==> !packets[i].SymEncrypted?
    ensures LastData(packets).Some? ==>
              exists i :: 0 <= i < |packets| && packets[i] == SymEncrypted(LastData(packets).value) &&
                forall j :: i < j < |packets| ==> !packets[j].SymEncrypted?
  {
    if packets != [] {
      var n := |packets| - 1;
      var init := packets[..n];
      if !packets[n].SymEncrypted? {
        LastDataPacketWins(init);
        assert forall i :: 0 <= i < n ==> packets[i] == init[i];
        if LastData(init).Some? {
          var i :| 0 <= i < n && init[i] == SymEncrypted(LastData(init).value) &&
                   forall j :: i < j < n ==> !init[j].SymEncrypted?;
          assert packets[i] == SymEncrypted(LastData(packets).value);
        }
      }
    }
  }

  /** `SeparateKeyAndData` as a function of the stream: a missing key packet
      is the nil dereference of line 358, reported as `NoKeyPacket`; the key
      packet's bytes are whatever the foreign serializer writes for it. */
  function SplitOf(packets: seq<Packet>, serializeKey: EncryptedKey -> seq<byte>): Result<EncryptedSplit, ErrorKind> {
    match RetainedKey(packets)
    case None => Failure(NoKeyPacket)
    case Some(ek) => Success(EncryptedSplit(serializeKey(ek), DataPacketOf(packets)))
  }

  /** One more packet of the stream updates the retained key by `Retain`
      and the data packet by the packet's own frame, if it is a data packet. */
  lemma StepOnPrefix(packets: seq<Packet>, i: nat)
    requires i < |packets|
    ensures RetainedKey(packets[..i + 1]) == Retain(RetainedKey(packets[..i]), packets[i])
    ensures DataPacketOf(packets[..i + 1]) ==
              if packets[i].SymEncrypted? then FrameData(packets[i].contents) else DataPacketOf(packets[..i])
  {
    assert packets[..i + 1][..i] == packets[..i];
  }

  /** Lines 344-349: the data packet built octet group by octet group. It
      only mirrors Go's appends; what the frame means is stated of
      `FrameData`. */
  method BuildDataPacket(contents: seq<byte>) returns (symEncryptedData: seq<byte>)
    ensures symEncryptedData == FrameData(contents)
  {
    var header := EncodedLength(|contents| + 1);
    symEncryptedData := [];
    symEncryptedData := symEncryptedData + [SeipdHeader];
    symEncryptedData := symEncryptedData + header;
    symEncryptedData := symEncryptedData + [SeipdVersion];
    symEncryptedData := symEncryptedData + contents;
  }

  /** The loop at lines 324-355. `unarmored` is the packet stream the reader
      yields before end of stream, or None when armor decoding failed; the
      reader is assumed to report no error other than end of stream, which
      the loop does not check. */
  method SeparateKeyAndData(unarmored: Option<seq<Packet>>, serializeKey: EncryptedKey -> seq<byte>)
    returns (r: Result<EncryptedSplit, ErrorKind>)
    ensures unarmored.None? ==> r == Failure(ArmorDecodeError)
    ensures unarmored.Some? ==> r == SplitOf(unarmored.value, serializeKey)
  {
    if unarmored.None? {
      return Failure(ArmorDecodeError);
    }
    var packets := unarmored.value;
    var ek: Option<EncryptedKey> := None;
    var dataPacket: seq<byte> := [];
    var i := 0;
    while i < |packets|
      invariant 0 <= i <= |packets|
      invariant ek == RetainedKey(packets[..i])
      invariant dataPacket == DataPacketOf(packets[..i])
    {
      StepOnPrefix(packets, i);
      match packets[i] {
        case EncryptedKeyPacket(p) =>
          if !(ek.Some? && ek.value.key.Some?) {
            ek := Some(p);
          }
        case SymEncrypted(contents) =>
          dataPacket := BuildDataPacket(contents);
        case _ =>
      }
      i := i + 1;
    }
    assert packets[..i] == packets;
    if ek.None? {
      return Failure(NoKeyPacket);
    }
    r := Success(EncryptedSplit(serializeKey(ek.value), dataPacket));
  }

  /** A message without an encrypted key packet cannot be split. */
  lemma NoKeyPacketFails(packets: seq<Packet>, serializeKey: EncryptedKey -> seq<byte>)
    requires forall i :: 0 <= i < |packets| ==> !packets[i].EncryptedKeyPacket?
    ensures SplitOf(packets, serializeKey) == Failure(NoKeyPacket)
  {
    RetainedKeyIsFromStream(packets);
  }
}
