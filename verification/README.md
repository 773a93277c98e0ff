# Session-key packet logic of gopenpgp's `session.go`, in Dafny

This project models the packet-level core of `session.go`. That code takes the
session key out of an OpenPGP message and puts it back in, without touching
the bulk ciphertext:

- the new-format length header of section 4.2.2 of RFC 4880 (`encodedLength`);
- the cipher-name table and its two lookups (`symKeyAlgos`, `cipherFunc`,
  `getAlgo`);
- recovery of a `SessionSplit` from a public-key encrypted session key packet.
  This covers `getSessionSplit` and the candidate-key loop shared by
  `GetSessionFromKeyPacketBinkeys` and `GetSessionFromKeyPacket`;
- recovery from symmetric-key packets with a password
  (`GetSessionFromSymmetricPacket`);
- re-wrapping a session key for a public key (`KeyPacketWithPublicKey`,
  `KeyPacketWithPublicKeyBin`, including the choice of encryption key) or for
  a password (`SymmetricKeyPacketWithPassword`);
- splitting a message into its key packet and a re-framed Symmetrically
  Encrypted Integrity Protected Data packet (`SeparateKeyAndData`).

Cryptography, packet parsing, serialization and armor come from a foreign
library. They appear in two forms:
- function parameters: a serializer, a symmetric decryptor, a packet reader;
- given outcomes: each candidate private key records whether it is locked,
  whether the passphrase unlocks it, and what decrypting the packet with it
  yields.

The packet stream is a `seq<Packet>`, where `Packet` has four variants:
encrypted key, symmetric-key encrypted, symmetrically encrypted data, and
other.

Modules, one per component (`Wrappers`, `Octets` and `Search` are helpers):

| file | module | models |
|---|---|---|
| wrappers.dfy | `Wrappers` | `Option` for Go's nil, `Result` for Go's error returns |
| octets.dfy | `Octets` | `byte` and Go's `byte(x)` truncation |
| packet_length.dfy | `PacketLength` | `encodedLength`, plus a decoder built from RFC 4880 |
| cipher_registry.dfy | `CipherRegistry` | `symKeyAlgos`, `cipherFunc`, `getAlgo` (ids from section 9.2 of RFC 4880) |
| search.dfy | `Search` | the early-exit "first element that passes" scan |
| packets.dfy | `Packets` | packets, `SessionSplit`, `EncryptedSplit`, error kinds |
| session_recovery.dfy | `SessionRecovery` | `getSessionSplit`, the candidate loop, the symmetric path |
| rewrap.dfy | `Rewrap` | public-key and password re-wrapping |
| splitter.dfy | `Splitter` | `SeparateKeyAndData` |

Some behaviours of the code differ from what a reader of its names, or of
RFC 4880, might expect. The model keeps the code's behaviour:

- **Key packet choice in `SeparateKeyAndData`.** One might expect the first
  key packet of a multi-recipient message to be kept. The code replaces a
  retained packet whenever that packet has no `Key`. So the first packet that
  carries a key is kept (`FirstKeyBearingPacketWins`). Among packets that
  carry no key, the last one wins (`LastKeylessPacketWins`).
- **Candidate loop failures.** One might expect a decryption error when no
  candidate succeeds. The code gives two other outcomes:
  - if some decryption was attempted and the last one failed, line 71
    returns the keyring reader's nil `err`: neither a session nor an error
    (`NoSessionNoError`);
  - if no candidate was attempted, the packet goes to `getSessionSplit`
    unchanged and fails there because its key is nil.
- **Empty session key.** The code rejects only a nil `Key`, so an empty
  non-nil key is accepted as a session.
- **Empty password on the symmetric path.** `SymmetricKeyPacketWithPassword`
  refuses an empty password, but `GetSessionFromSymmetricPacket` tries it:
  `[]byte(password)` is never nil, so the guard at line 195 only checks that
  some packet was collected.
- **Identity test.** The identity check at line 153 is
  `FlagsValid || FlagEncryptStorage || FlagEncryptCommunications`. This is
  the opposite polarity of the subkey check at line 143, so an identity whose
  flags are present but mark no encryption use still selects the primary
  key. The model keeps the code as written (`IdentityQualifies`).
- **Missing key packet.** When no key packet was found, the code
  dereferences a nil packet at line 358 and panics. The model reports this
  as the explicit outcome `NoKeyPacket`.

## Model

| member | source | states |
|---|---|---|
| PacketLength.EncodedLength | session.go:287-302 | one octet equal to n below 192; two octets, the first in 192..223, that recombine to n for 192 ≤ n < 8384; else 255 then n mod 2^32 big-endian; exactly one tier applies |
| PacketLength.EncodedLengthRoundTrip | session.go:287-302 | an RFC 4880 reader recovers every n < 2^32 from its encoding and consumes exactly the header, whatever follows |
| PacketLength.EncodedLengthTruncates | session.go:294-299 | for n ≥ 2^32 Go's byte truncation makes the header announce n mod 2^32 |
| PacketLength.DecodedLengthReencodes | session.go:287-302 | a definite-length header in its shortest form is exactly what the encoder writes for the decoded length |
| PacketLength.EncodedLengthInjective | session.go:287-302 | two 32-bit lengths whose headers begin the same stream are equal (injective and prefix-free) |
| PacketLength.EncodedLengthBoundaries | session.go:288-299 | the values at 0, 191, 192, 8383 and 8384 |
| CipherRegistry.CipherFunc | session.go:244-250 | a known name maps to its table id and any other name to AES-256 (9); the result is always a table id |
| CipherRegistry.GetAlgo | session.go:274-284 | a known id maps to the unique name carrying it, so Go's map order cannot matter; an unknown id maps to "aes256" |
| CipherRegistry.SymKeyAlgosInjective | session.go:235-241 | no two names share an id |
| CipherRegistry.GetAlgoOfCipherFunc | session.go:235-250 | getAlgo(cipherFunc(name)) == name for each of the five names |
| CipherRegistry.CipherFuncOfGetAlgo | session.go:235-284 | cipherFunc(getAlgo(id)) == id for each of the five ids |
| CipherRegistry.UnknownFallsBackToAes256 | session.go:249 | an unknown name becomes AES-256; an unknown id becomes "aes256" and so maps back to AES-256, not to itself |
| CipherRegistry.KnownCiphers | session.go:235-241 | the known ids are exactly 2, 3, 7, 8, 9 |
| SessionRecovery.GetSessionSplit | session.go:252-272 | fails exactly on a missing packet or nil Key, with those two errors; otherwise Session is ek.Key and Algo is a table name whose id is ek.CipherFunc, or "aes256" when the id is unknown |
| SessionRecovery.DecryptWithCandidates | session.go:57-68 | after the loop: if some candidate decrypts, the first one's key and cipher are recorded and there is no error; otherwise the packet is unchanged and decryptErr is set exactly when some candidate was attempted |
| SessionRecovery.GetSessionFromKeyPacket | session.go:37-75 | read failure and keyring failure are errors; otherwise the loop outcome decides: neither session nor error after a failed last attempt, else getSessionSplit of the packet |
| SessionRecovery.FirstDecryptingCandidateWins | session.go:57-74 | candidates are tried in order; the first that decrypts gives the session, whatever failed before it |
| SessionRecovery.OnlyLastCandidateMatches | session.go:57-74 | when only the last key of the keyring matches, the session is still recovered |
| SessionRecovery.LastAttemptFailedGivesNeither | session.go:65-72 | when candidates were attempted and none decrypts, the call returns neither a session nor an error |
| SessionRecovery.NoAttemptKeepsParsedPacket | session.go:57-74 | when no candidate is attempted the parsed packet reaches getSessionSplit unchanged; without a key that fails with a nil-key error |
| SessionRecovery.LockedKeyIsSkipped | session.go:59-63 | inserting a locked key that refuses the passphrase anywhere in the keyring changes nothing, including the recorded error |
| SessionRecovery.CollectSymKeys | session.go:178-191 | collects exactly the symmetric-key packets of the stream, in order |
| SessionRecovery.IgnoresOtherPackets | session.go:187-190 | inserting a non-symmetric-key packet anywhere leaves the collected packets unchanged |
| SessionRecovery.SymKeysInMembers | session.go:178-191 | a packet is collected if and only if it is a symmetric-key packet of the stream |
| SessionRecovery.SymmetricSession | session.go:173-209 | fails, with password incorrect, exactly when no collected packet opens with the password; otherwise the session is the first success's key, with Algo = getAlgo of its cipher |
| SessionRecovery.GetSessionFromSymmetricPacket | session.go:173-209 | the two loops compute exactly the symmetric session outcome above |
| SessionRecovery.EmptyPasswordIsTried | session.go:193-205 | an empty password is tried, and succeeds if a packet opens with it |
| Rewrap.EntityKey | session.go:142-156 | an entity offers a key exactly when a subkey qualifies or its first identity does; the key is the first qualifying subkey's, else the primary key when that identity qualifies |
| Rewrap.UsableKeyIsFirstQualifying | session.go:140-160 | the earliest entity that offers a key decides; inside it, the first qualifying subkey is taken, and the primary key only when no subkey qualifies |
| Rewrap.NoUsableKey | session.go:141-163 | no key is selected exactly when no entity offers one |
| Rewrap.SelectPublicKey | session.go:140-160 | the nested early-exit loops select exactly that key |
| Rewrap.PublicKeyPacket | session.go:128-170 | an empty keyring and no usable key are errors; with a usable key the result is the serializer's bytes for that key, cipherFunc(Algo) and the session key, or a serialization error exactly when the serializer fails |
| Rewrap.KeyPacketWithPublicKeyBin | session.go:128-170 | the method computes exactly that outcome |
| Rewrap.KeyPacketWithPublicKey | session.go:119-125 | an armor failure is an error; otherwise as KeyPacketWithPublicKeyBin |
| Rewrap.PublicKeyRoundTrip | session.go:134-169 | if the produced packet reads back and a keyring key opens it to what was serialized, the session returns with the same key and the name normalised by the table |
| Rewrap.SymmetricKeyPacketWithPassword | session.go:212-232 | fails with the empty-password error exactly when the password is empty, before any serialization; otherwise succeeds exactly when the serializer does, with its bytes |
| Rewrap.PasswordRoundTrip | session.go:212-232 | a produced password packet whose read-back first packet opens with the password returns the same key and the normalised name |
| Splitter.FrameData | session.go:344-349 | the data packet is tag 210, a length header, version 1, then the contents: its length is \|c\| + 2 + header and c is its unchanged suffix |
| Splitter.FrameDataIsWellFormed | session.go:344-349 | the header is a new-format header of tag 18 and announces exactly the octets after it (version plus contents) |
| Splitter.FrameDataTwoOctetExample | session.go:344-349 | 8000 octets of contents give the header 210, 222, 129, version 1 and a body length of 8001 |
| Splitter.KeyBearingPacketIsKept | session.go:333-336 | a retained key packet that carries a key is never replaced later |
| Splitter.RetainedKeyIsFromStream | session.go:330-337 | the retained packet is one of the stream's key packets, and one is retained exactly when the stream has one |
| Splitter.FirstKeyBearingPacketWins | session.go:331-337 | the first key packet that carries a key is the one retained |
| Splitter.LastKeylessPacketWins | session.go:331-337 | when no key packet carries a key, the last key packet is retained |
| Splitter.LastDataPacketWins | session.go:338-351 | the data packet comes from the last data packet of the stream, and is empty exactly when there is none |
| Splitter.SeparateKeyAndData | session.go:305-362 | an armor failure is an error; otherwise the retained key packet is serialized and the last data packet re-framed, and a stream without a key packet fails |
| Splitter.NoKeyPacketFails | session.go:357-359 | a message without an encrypted key packet cannot be split |

## Left out

- `RandomToken` and `RandomTokenWith` (session.go:16-34) read a random source, which is I/O. Only the output length could be stated about them.
- Cryptography is not modelled: `priv.Decrypt`, `ek.Decrypt` and `s.Decrypt`. Their outcomes are given as `Candidate` fields or passed in as the `decrypt` parameter.
- Serialization is not modelled: `packet.SerializeEncryptedKey`, `packet.SerializeSymmetricKeyEncryptedReuseKey` and `ek.Serialize`. The serializers are function parameters.
- Parsing is not modelled: `packet.NewReader`/`Next`, `openpgp.ReadKeyRing`/`ReadArmoredKeyRing` and `UnArmor`. Their results are inputs.
- `ioutil.ReadAll(p.Contents)` (session.go:340) is stream I/O. A data packet's contents are given bytes, and its read-error branch is not modelled.
- Error message texts are not modelled; only the branch taken is. One example: the serializer failure at session.go:165-167 returns a "key ring is empty" text, but the model reports it as `SerializationError`.
- Panics are preconditions, not modelled failures:
  - the type assertions at session.go:48 and 89 (`FirstIsKeyPacket`);
  - non-EOF errors from `Next()` in the loop at session.go:324-329, which the loop does not check. The stream is taken to end at end of stream.
- The nil dereference at session.go:358 is the explicit `NoKeyPacket` outcome.
- Go map iteration order for `e.Identities` (session.go:150-152) is a given choice. `Entity.identities` lists the identities in this call's iteration order, and its first element is the one picked.
- The error returned by `openpgp.ReadKeyRing` in `KeyPacketWithPublicKeyBin` (session.go:130) is not checked by the code. The model takes the entities that call returned, which are none on error.
- In the candidate loop, `ek.Decrypt` can set `CipherFunc` and `Key` before a checksum failure. This partial update is not modelled. It cannot reach `getSessionSplit`, because any failed attempt leads to the return at line 71 unless a later attempt succeeds and overwrites both fields.
- The source does not enforce that a `SessionSplit`'s key length matches its algorithm, so the model does not either.
- build.gradle.kts is a build script with no program logic.
