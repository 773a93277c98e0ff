/** The data model shared by the operations of session.go: the packets the
    packet reader yields, the session key split, the message split and the
    error outcomes. Cryptographic state is reduced to what this code reads. */
module Packets {
  import opened Wrappers
  import opened Octets
  import opened CipherRegistry

  /** What a successful decryption by a cryptographic collaborator
      (`ek.Decrypt`, `s.Decrypt`) yields: the session key and its cipher. */
  datatype DecryptedKey = DecryptedKey(cipherFunc: CipherFunction, key: seq<byte>)

  /** `packet.EncryptedKey`, a public-key encrypted session key packet (tag 1
      of RFC 4880). `key` is Go's `Key` slice: nil (None) as the parser
      produces it, set by a successful decryption. `wire` stands for the
      fields only the foreign serializer and decryptor read (key id, public-key
      algorithm, encrypted MPIs). */
  datatype EncryptedKey = EncryptedKey(cipherFunc: CipherFunction, key: Option<seq<byte>>, wire: seq<byte>)

  /** `packet.SymmetricKeyEncrypted`, a symmetric-key encrypted session key
      packet (tag 3); opaque here, it is only ever passed to a decryptor. */
  datatype SymmetricKeyEncrypted = SymmetricKeyEncrypted(cipherFunc: CipherFunction, wire: seq<byte>)

  /** The packets the reader yields, up to end of stream. `SymEncrypted`
      holds the contents of a `packet.SymmetricallyEncrypted` packet as read
      to its end. */
  datatype Packet =
    | EncryptedKeyPacket(ek: EncryptedKey)
    | SymKeyEncrypted(ske: SymmetricKeyEncrypted)
    | SymEncrypted(contents: seq<byte>)
    | Other

  /** `SessionSplit`: raw session key and algorithm name. */
  datatype SessionSplit = SessionSplit(session: seq<byte>, algo: string)

  /** `EncryptedSplit`: the serialized key packet and the re-framed data packet. */
  datatype EncryptedSplit = EncryptedSplit(keyPacket: seq<byte>, dataPacket: seq<byte>)

  /** Which failure branch an operation took; the message texts are not modelled. */
  datatype ErrorKind =
    | PacketParseError      // the packet reader failed on the first packet
    | KeyRingParseError     // the keyring could not be read
    | NilKeyPacket          // getSessionSplit given no packet
    | NilSessionKey         // getSessionSplit given a packet whose Key is nil
    | EmptyKeyRing          // no entity in the public keyring
    | NoPublicKey           // no entity offers an encryption key
    | SerializationError    // a packet serializer failed
    | EmptyPassword         // an empty password for the symmetric key packet
    | PasswordIncorrect     // no symmetric key packet opened with the password
    | ArmorDecodeError      // armor decoding failed
    | NoKeyPacket           // the message held no encrypted key packet

  /** The decryptor's side effect on `packet.EncryptedKey`: a successful
      decryption records the recovered cipher and key in the packet. */
  function WithDecrypted(ek: EncryptedKey, d: DecryptedKey): (r: EncryptedKey)
    ensures r.key == Some(d.key) && r.cipherFunc == d.cipherFunc && r.wire == ek.wire
  {
    ek.(cipherFunc := d.cipherFunc, key := Some(d.key))
  }
}
