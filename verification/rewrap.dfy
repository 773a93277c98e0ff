/** Re-wrapping a session key for a new recipient: `KeyPacketWithPublicKey`,
    `KeyPacketWithPublicKeyBin` (with its choice of encryption key) and
    `SymmetricKeyPacketWithPassword`. Packet serialization is a foreign
    collaborator, passed in as a function that fails with None. */
module Rewrap {
  import opened Wrappers
  import opened Octets
  import opened CipherRegistry
  import opened Search
  import opened Packets
  import opened SessionRecovery

  /** `packet.PublicKey`, opaque: only passed to the serializer. */
  datatype PublicKey = PublicKey(keyId: nat)

  /** The flags of a `packet.Signature` this code reads. */
  datatype Signature = Signature(flagsValid: bool, flagEncryptStorage: bool, flagEncryptCommunications: bool)

  datatype Subkey = Subkey(publicKey: PublicKey, sig: Signature)

  datatype Identity = Identity(selfSignature: Signature)

  /** `openpgp.Entity`. Go keeps identities in a map; `identities` lists them
      in the order this call's map iteration visits them, so its first
      element is the identity that the `for ... { break }` at lines 150-152
      picks. */
  datatype Entity = Entity(primaryKey: PublicKey, identities: seq<Identity>, subkeys: seq<Subkey>)

  /** The subkey test of line 143: flags absent, or an encryption flag set. */
  predicate SubkeyQualifies(s: Subkey) {
    !s.sig.flagsValid || s.sig.flagEncryptStorage || s.sig.flagEncryptCommunications
  }

  /** The identity test of line 153, as written: flags present, or an
      encryption flag set (the opposite polarity of the subkey test). */
  predicate IdentityQualifies(i: Identity) {
    i.selfSignature.flagsValid || i.selfSignature.flagEncryptStorage || i.selfSignature.flagEncryptCommunications
  }

  /** The key one entity offers: its first qualifying subkey, else its
      primary key when the chosen identity qualifies. */
  function EntityKey(e: Entity): (pub: Option<PublicKey>)
    ensures pub.Some? <==> (exists j :: 0 <= j < |e.subkeys| && SubkeyQualifies(e.subkeys[j])) ||
                           (|e.identities| > 0 && IdentityQualifies(e.identities[0]))
    ensures forall j :: 0 <= j < |e.subkeys| && SubkeyQualifies(e.subkeys[j]) &&
                        (forall k :: 0 <= k < j ==> !SubkeyQualifies(e.subkeys[k])) ==>
              pub == Some(e.subkeys[j].publicKey)
    ensures (forall j :: 0 <= j < |e.subkeys| ==> !SubkeyQualifies(e.subkeys[j])) ==>
              pub == if |e.identities| > 0 && IdentityQualifies(e.identities[0]) then Some(e.primaryKey) else None
  {
    match FirstIndex(e.subkeys, SubkeyQualifies)
    case Some(j) => Some(e.subkeys[j].publicKey)
    case None =>
      if |e.identities| > 0 && IdentityQualifies(e.identities[0]) then Some(e.primaryKey) else None
  }

  predicate YieldsKey(e: Entity) {
    EntityKey(e).Some?
  }

  /** The key selected from a keyring: that of the earliest entity that
      offers one. */
  function UsableKey(entries: seq<Entity>): Option<PublicKey> {
    match FirstIndex(entries, YieldsKey)
    case Some(i) => EntityKey(entries[i])
    case None => None
  }

  /** Selection stops at the first entity offering a key, and there at its
      first qualifying subkey; the primary key is used only when no subkey
      qualifies. */
  lemma UsableKeyIsFirstQualifying(entries: seq<Entity>, i: nat)
    requires i < |entries| && YieldsKey(entries[i])
    requires forall k :: 0 <= k < i ==> !YieldsKey(entries[k])
    ensures (exists j :: 0 <= j < |entries[i].subkeys| && SubkeyQualifies(entries[i].subkeys[j])) ==>
              exists j :: 0 <= j < |entries[i].subkeys| && SubkeyQualifies(entries[i].subkeys[j]) &&
                (forall k :: 0 <= k < j ==> !SubkeyQualifies(entries[i].subkeys[k])) &&
                UsableKey(entries) == Some(entries[i].subkeys[j].publicKey)
    ensures (forall j :: 0 <= j < |entries[i].subkeys| ==> !SubkeyQualifies(entries[i].subkeys[j])) ==>
              UsableKey(entries) == Some(entries[i].primaryKey)
  {
    FirstIndexUnique(entries, YieldsKey, i);
  }

  /** No key is selected exactly when no entity offers one. */
  lemma NoUsableKey(entries: seq<Entity>)
    ensures UsableKey(entries).None? <==> forall i :: 0 <= i < |entries| ==> !YieldsKey(entries[i])
  {
  }

  /** The nested scan at lines 140-160. */
  method SelectPublicKey(entries: seq<Entity>) returns (pub: Option<PublicKey>)
    ensures pub == UsableKey(entries)
  {
    pub := None;
    var i := 0;
    while i < |entries|
      invariant 0 <= i <= |entries|
      invariant pub.None?
      invariant forall k :: 0 <= k < i ==> !YieldsKey(entries[k])
    {
      var e := entries[i];
      var j := 0;
      while j < |e.subkeys|
        invariant 0 <= j <= |e.subkeys|
        invariant pub.None?
        invariant forall k :: 0 <= k < j ==> !SubkeyQualifies(e.subkeys[k])
      {
        if SubkeyQualifies(e.subkeys[j]) {
          pub := Some(e.subkeys[j].publicKey);
          FirstIndexUnique(e.subkeys, SubkeyQualifies, j);
          break;
        }
        j := j + 1;
      }
      if pub.None? && |e.identities| > 0 {
        var identity := e.identities[0];
        if IdentityQualifies(identity) {
          pub := Some(e.primaryKey);
        }
      }
      if pub.Some? {
        FirstIndexUnique(entries, YieldsKey, i);
        return;
      }
      i := i + 1;
    }
  }

  /** `packet.SerializeEncryptedKey`: key packet bytes for a public key,
      cipher and session key, or None when it fails. */
  type EncryptedKeySerializer = (PublicKey, CipherFunction, seq<byte>) -> Option<seq<byte>>

  /** `KeyPacketWithPublicKeyBin` as a function of the keyring's entities
      (what `openpgp.ReadKeyRing` returned; its error is not checked, and on
      error it returns no entities). */
  function PublicKeyPacket(split: SessionSplit, entries: seq<Entity>, serialize: EncryptedKeySerializer)
    : (r: Result<seq<byte>, ErrorKind>)
    ensures |entries| == 0 ==> r == Failure(EmptyKeyRing)
    ensures |entries| > 0 && UsableKey(entries).None? ==> r == Failure(NoPublicKey)
    ensures |entries| > 0 && UsableKey(entries).Some? ==>
              r == match serialize(UsableKey(entries).value, CipherFunc(split.algo), split.session)
                   case None => Failure(SerializationError)
                   case Some(b) => Success(b)
    ensures r.Success? ==>
              && UsableKey(entries).Some?
              && serialize(UsableKey(entries).value, CipherFunc(split.algo), split.session) == Some(r.value)
    ensures r == Failure(SerializationError) ==>
              && UsableKey(entries).Some?
              && serialize(UsableKey(entries).value, CipherFunc(split.algo), split.session).None?
  {
    var cf := CipherFunc(split.algo);
    if |entries| == 0 then Failure(EmptyKeyRing)
    else match UsableKey(entries)
      case None => Failure(NoPublicKey)
      case Some(pub) =>
        match serialize(pub, cf, split.session)
        case None => Failure(SerializationError)
        case Some(bytes) => Success(bytes)
  }

  method KeyPacketWithPublicKeyBin(split: SessionSplit, entries: seq<Entity>, serialize: EncryptedKeySerializer)
    returns (r: Result<seq<byte>, ErrorKind>)
    ensures r == PublicKeyPacket(split, entries, serialize)
  {
    var cf := CipherFunc(split.algo);
    if |entries| == 0 {
      return Failure(EmptyKeyRing);
    }
    var pub := SelectPublicKey(entries);
    if pub.None? {
      return Failure(NoPublicKey);
    }
    var bytes := serialize(pub.value, cf, split.session);
    if bytes.None? {
      return Failure(SerializationError);
    }
    r := Success(bytes.value);
  }

  /** `KeyPacketWithPublicKey`: the armored form; `unarmored` is what the
      armor decoder and keyring reader produced, None when unarmoring failed. */
  method KeyPacketWithPublicKey(split: SessionSplit, unarmored: Option<seq<Entity>>, serialize: EncryptedKeySerializer)
    returns (r: Result<seq<byte>, ErrorKind>)
    ensures unarmored.None? ==> r == Failure(ArmorDecodeError)
    ensures unarmored.Some? ==> r == PublicKeyPacket(split, unarmored.value, serialize)
  {
    if unarmored.None? {
      return Failure(ArmorDecodeError);
    }
    r := KeyPacketWithPublicKeyBin(split, unarmored.value, serialize);
  }

  /** The name a re-wrapped session comes back with: its own when the table
      knows it, "aes256" otherwise. */
  function RecoveredAlgo(algo: string): string {
    if algo in SymKeyAlgos then algo else DefaultAlgo
  }

  /** Public-key round trip: if the key packet produced for the selected key
      parses back to an encrypted key packet that the matching private key
      (somewhere in the recipient's keyring, after keys that do not
      decrypt) opens to the cipher and key that were serialized, the session
      comes back with the same key and the normalised algorithm name. */
  lemma PublicKeyRoundTrip(split: SessionSplit, entries: seq<Entity>, serialize: EncryptedKeySerializer,
                           bytes: seq<byte>, parse: seq<byte> -> Option<Packet>, ek: EncryptedKey,
                           keys: seq<Candidate>, i: nat)
    requires PublicKeyPacket(split, entries, serialize) == Success(bytes)
    requires parse(bytes) == Some(EncryptedKeyPacket(ek))
    requires i < |keys| && Attempted(keys[i])
    requires keys[i].decryption == Some(DecryptedKey(CipherFunc(split.algo), split.session))
    requires forall j :: 0 <= j < i ==> !Decrypts(keys[j])
    ensures KeyPacketSession(parse(bytes), Some(keys)) == Found(SessionSplit(split.session, RecoveredAlgo(split.algo)))
  {
    FirstDecryptingCandidateWins(ek, keys, i);
    if split.algo in SymKeyAlgos {
      GetAlgoOfCipherFunc(split.algo);
    } else {
      GetAlgoOfCipherFunc(DefaultAlgo);
    }
  }

  /** `packet.SerializeSymmetricKeyEncryptedReuseKey`: symmetric key packet
      bytes for a session key, password and cipher, or None when it fails. */
  type SymmetricKeySerializer = (seq<byte>, seq<byte>, CipherFunction) -> Option<seq<byte>>

  /** `SymmetricKeyPacketWithPassword`: an empty password is refused before
      anything is serialized. */
  function SymmetricKeyPacketWithPassword(split: SessionSplit, password: seq<byte>, serialize: SymmetricKeySerializer)
    : (r: Result<seq<byte>, ErrorKind>)
    ensures |password| == 0 <==> r == Failure(EmptyPassword)
    ensures r.Success? <==> |password| > 0 && serialize(split.session, password, CipherFunc(split.algo)).Some?
    ensures r.Success? ==> r.value == serialize(split.session, password, CipherFunc(split.algo)).value
  {
    var cf := CipherFunc(split.algo);
    if |password| <= 0 then Failure(EmptyPassword)
    else match serialize(split.session, password, cf)
      case None => Failure(SerializationError)
      case Some(bytes) => Success(bytes)
  }

  /** Password round trip: if the packet produced with a password reads back
      (`read`, the packet reader) as a stream whose first symmetric key
      packet opens with that password to the cipher and key that were
      serialized, the session comes back with the same key and the
      normalised algorithm name. */
  lemma PasswordRoundTrip(split: SessionSplit, password: seq<byte>, serialize: SymmetricKeySerializer,
                          bytes: seq<byte>, read: seq<byte> -> seq<Packet>,
                          decrypt: (SymmetricKeyEncrypted, seq<byte>) -> Option<DecryptedKey>)
    requires SymmetricKeyPacketWithPassword(split, password, serialize) == Success(bytes)
    requires |SymKeysIn(read(bytes))| > 0
    requires decrypt(SymKeysIn(read(bytes))[0], password) == Some(DecryptedKey(CipherFunc(split.algo), split.session))
    ensures |password| > 0
    ensures SymmetricSession(read(bytes), password, decrypt) == Success(SessionSplit(split.session, RecoveredAlgo(split.algo)))
  {
    if split.algo in SymKeyAlgos {
      GetAlgoOfCipherFunc(split.algo);
    } else {
      GetAlgoOfCipherFunc(DefaultAlgo);
    }
  }
}
