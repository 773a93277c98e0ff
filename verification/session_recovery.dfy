/** Recovering the session key from a key packet: `getSessionSplit`, the
    candidate-key loop shared by `GetSessionFromKeyPacketBinkeys` and
    `GetSessionFromKeyPacket`, and `GetSessionFromSymmetricPacket`. */
module SessionRecovery {
  import opened Wrappers
  import opened Octets
  import opened CipherRegistry
  import opened Search
  import opened Packets

  /** `getSessionSplit`: fails on a missing packet or a nil `Key`; otherwise
      hands back the packet's key under the table name of its cipher. */
  function GetSessionSplit(ek: Option<EncryptedKey>): (r: Result<SessionSplit, ErrorKind>)
    ensures r.Success? <==> ek.Some? && ek.value.key.Some?
    ensures ek.None? ==> r == Failure(NilKeyPacket)
    ensures ek.Some? && ek.value.key.None? ==> r == Failure(NilSessionKey)
    ensures r.Success? ==> r.value.session == ek.value.key.value
    ensures r.Success? ==> r.value.algo in SymKeyAlgos
    ensures r.Success? && KnownCipher(ek.value.cipherFunc) ==> CipherFunc(r.value.algo) == ek.value.cipherFunc
    ensures r.Success? && !KnownCipher(ek.value.cipherFunc) ==> r.value.algo == DefaultAlgo
  {
    match ek
    case None => Failure(NilKeyPacket)
    case Some(p) =>
      var algo := GetAlgo(p.cipherFunc);
      match p.key
      case None => Failure(NilSessionKey)
      case Some(k) => Success(SessionSplit(k, algo))
  }

  // ---------------------------------------------------------------------
  // Public-key path
  // ---------------------------------------------------------------------

  /** One entry of `DecryptionKeys()`, reduced to what the loop observes:
      whether its private key is passphrase-protected (`priv.Encrypted`),
      whether `priv.Decrypt(passphrase)` unlocks it, and what
      `ek.Decrypt(priv, nil)` yields with it (None for an error). */
  datatype Candidate = Candidate(encrypted: bool, unlockOk: bool, decryption: Option<DecryptedKey>)

  /** The loop reaches `ek.Decrypt` with this candidate. */
  predicate Attempted(c: Candidate) {
    !c.encrypted || c.unlockOk
  }

  /** The loop stops at this candidate. */
  predicate Decrypts(c: Candidate) {
    Attempted(c) && c.decryption.Some?
  }

  /** State left by the loop: the (possibly decrypted) packet, and whether
      `decryptErr` is non-nil. */
  datatype LoopOutcome = LoopOutcome(ek: EncryptedKey, decryptErr: bool)

  /** What the loop leaves behind, stated without the loop: the first
      candidate that decrypts wins; otherwise the error of the last attempt
      stands, and there is one exactly when some candidate was attempted. */
  function CandidateOutcome(ek: EncryptedKey, keys: seq<Candidate>): LoopOutcome {
    match FirstIndex(keys, Decrypts)
    case Some(i) => LoopOutcome(WithDecrypted(ek, keys[i].decryption.value), false)
    case None => LoopOutcome(ek, exists j :: 0 <= j < |keys| && Attempted(keys[j]))
  }

  /** The loop at session.go lines 57-68 (and again at 98-109). */
  method DecryptWithCandidates(ek: EncryptedKey, keys: seq<Candidate>) returns (out: EncryptedKey, decryptErr: bool)
    ensures LoopOutcome(out, decryptErr) == CandidateOutcome(ek, keys)
  {
    out, decryptErr := ek, false;
    var i := 0;
    while i < |keys|
      invariant 0 <= i <= |keys|
      invariant out == ek
      invariant forall j :: 0 <= j < i ==> !Decrypts(keys[j])
      invariant decryptErr <==> exists j :: 0 <= j < i && Attempted(keys[j])
    {
      var priv := keys[i];
      if priv.encrypted {
        if !priv.unlockOk {
          i := i + 1;
          continue;
        }
      }
      if priv.decryption.Some? {
        out, decryptErr := WithDecrypted(out, priv.decryption.value), false;
        FirstIndexUnique(keys, Decrypts, i);
        break;
      }
      decryptErr := true;
      i := i + 1;
    }
  }

  /** Outcome of a Go call returning `(*SessionSplit, error)`: a session, an
      error, or, on the path of line 71, neither. */
  datatype SessionResult = Found(split: SessionSplit) | Error(kind: ErrorKind) | NoSessionNoError

  function FromSplit(r: Result<SessionSplit, ErrorKind>): SessionResult {
    match r
    case Success(s) => Found(s)
    case Failure(e) => Error(e)
  }

  /** A first packet that is not an encrypted key packet makes the type
      assertion at line 48 (89) panic; callers must not pass one. */
  predicate FirstIsKeyPacket(first: Option<Packet>) {
    first.Some? ==> first.value.EncryptedKeyPacket?
  }

  /** `GetSessionFromKeyPacketBinkeys` / `GetSessionFromKeyPacket` as a
      function of the first packet read (None when `Next()` failed) and the
      keyring's candidates (None when the keyring failed to parse). When the
      last attempt failed, line 71 returns the keyring reader's nil error: no
      session and no error. */
  function KeyPacketSession(first: Option<Packet>, keyring: Option<seq<Candidate>>): SessionResult
    requires FirstIsKeyPacket(first)
  {
    match first
    case None => Error(PacketParseError)
    case Some(p) =>
      match keyring
      case None => Error(KeyRingParseError)
      case Some(keys) =>
        var out := CandidateOutcome(p.ek, keys);
        if out.decryptErr then NoSessionNoError
        else FromSplit(GetSessionSplit(Some(out.ek)))
  }

  method GetSessionFromKeyPacket(first: Option<Packet>, keyring: Option<seq<Candidate>>) returns (r: SessionResult)
    requires FirstIsKeyPacket(first)
    ensures r == KeyPacketSession(first, keyring)
  {
    if first.None? {
      return Error(PacketParseError);
    }
    var ek := first.value.ek;
    if keyring.None? {
      return Error(KeyRingParseError);
    }
    var decrypted, decryptErr := DecryptWithCandidates(ek, keyring.value);
    if decryptErr {
      return NoSessionNoError;
    }
    r := FromSplit(GetSessionSplit(Some(decrypted)));
  }

  /** Candidates are tried in keyring order and the first that decrypts
      decides the session, whatever failed before it. */
  lemma FirstDecryptingCandidateWins(ek: EncryptedKey, keys: seq<Candidate>, i: nat)
    requires i < |keys| && Decrypts(keys[i])
    requires forall j :: 0 <= j < i ==> !Decrypts(keys[j])
    ensures KeyPacketSession(Some(EncryptedKeyPacket(ek)), Some(keys)) ==
              Found(SessionSplit(keys[i].decryption.value.key, GetAlgo(keys[i].decryption.value.cipherFunc)))
  {
    FirstIndexUnique(keys, Decrypts, i);
  }

  /** A keyring of several keys where only the last one matches still
      yields the session. */
  lemma OnlyLastCandidateMatches(ek: EncryptedKey, keys: seq<Candidate>, d: DecryptedKey)
    requires |keys| > 0 && Attempted(keys[|keys| - 1]) && keys[|keys| - 1].decryption == Some(d)
    requires forall j :: 0 <= j < |keys| - 1 ==> keys[j].decryption.None?
    ensures KeyPacketSession(Some(EncryptedKeyPacket(ek)), Some(keys)) == Found(SessionSplit(d.key, GetAlgo(d.cipherFunc)))
  {
    FirstDecryptingCandidateWins(ek, keys, |keys| - 1);
  }

  /** When no candidate decrypts but one was attempted, the last attempt's
      error stands and the call returns neither a session nor an error. */
  lemma LastAttemptFailedGivesNeither(ek: EncryptedKey, keys: seq<Candidate>, j: nat)
    requires j < |keys| && Attempted(keys[j])
    requires forall k :: 0 <= k < |keys| ==> !Decrypts(keys[k])
    ensures KeyPacketSession(Some(EncryptedKeyPacket(ek)), Some(keys)) == NoSessionNoError
  {
  }

  /** When no candidate is even attempted (an empty keyring, or every key
      locked and refusing the passphrase), `decryptErr` stays nil and the
      parsed packet goes to `getSessionSplit` unchanged; a packet straight
      from the parser has no key, so the call fails. */
  lemma NoAttemptKeepsParsedPacket(ek: EncryptedKey, keys: seq<Candidate>)
    requires forall k :: 0 <= k < |keys| ==> !Attempted(keys[k])
    ensures KeyPacketSession(Some(EncryptedKeyPacket(ek)), Some(keys)) == FromSplit(GetSessionSplit(Some(ek)))
    ensures ek.key.None? ==> KeyPacketSession(Some(EncryptedKeyPacket(ek)), Some(keys)) == Error(NilSessionKey)
  {
    assert FirstIndex(keys, Decrypts).None?;
  }

  /** A locked key whose unlock fails is skipped: adding one anywhere in the
      keyring changes neither the chosen decryption nor the recorded error. */
  lemma {:induction false} LockedKeyIsSkipped(ek: EncryptedKey, before: seq<Candidate>, locked: Candidate, after: seq<Candidate>)
    requires locked.encrypted && !locked.unlockOk
    ensures KeyPacketSession(Some(EncryptedKeyPacket(ek)), Some(before + [locked] + after)) ==
            KeyPacketSession(Some(EncryptedKeyPacket(ek)), Some(before + after))
  {
    var s, t := before + [locked] + after, before + after;
    FirstIndexSkips(before, locked, after, Decrypts);
    var attemptedS := exists j :: 0 <= j < |s| && Attempted(s[j]);
    var attemptedT := exists j :: 0 <= j < |t| && Attempted(t[j]);
    if attemptedS {
      var j :| 0 <= j < |s| && Attempted(s[j]);
      assert j != |before|;
      assert Attempted(t[if j < |before| then j else j - 1]);
    }
    if attemptedT {
      var j :| 0 <= j < |t| && Attempted(t[j]);
      assert Attempted(s[if j < |before| then j else j + 1]);
    }
    assert attemptedS == attemptedT;
  }

  // ---------------------------------------------------------------------
  // Symmetric (password) path
  // ---------------------------------------------------------------------

  /** The symmetric-key packets of a stream, in stream order. */
  function SymKeysIn(packets: seq<Packet>): (ks: seq<SymmetricKeyEncrypted>)
    ensures |ks| <= |packets|
  {
    if packets == [] then []
    else
      var last := packets[|packets| - 1];
      SymKeysIn(packets[..|packets| - 1]) + (if last.SymKeyEncrypted? then [last.ske] else [])
  }

  lemma {:induction false} SymKeysInAppend(a: seq<Packet>, b: seq<Packet>)
    ensures SymKeysIn(a + b) == SymKeysIn(a) + SymKeysIn(b)
    decreases |b|
  {
    if b == [] {
      assert a + b == a;
    } else {
      var init := b[..|b| - 1];
      assert (a + b)[..|a + b| - 1] == a + init;
      SymKeysInAppend(a, init);
    }
  }

  /** Packets other than symmetric-key packets are ignored: inserting one
      anywhere leaves the collected packets unchanged. */
  lemma IgnoresOtherPackets(a: seq<Packet>, p: Packet, b: seq<Packet>)
    requires !p.SymKeyEncrypted?
    ensures SymKeysIn(a + [p] + b) == SymKeysIn(a + b)
  {
    SymKeysInAppend(a + [p], b);
    SymKeysInAppend(a, [p]);
    SymKeysInAppend(a, b);
    assert [p][..0] == [];
  }

  /** Every collected packet is one of the stream's symmetric-key packets,
      and every such packet is collected. */
  lemma {:induction false} SymKeysInMembers(packets: seq<Packet>, s: SymmetricKeyEncrypted)
    ensures s in SymKeysIn(packets) <==> SymKeyEncrypted(s) in packets
  {
    if packets != [] {
      var init := packets[..|packets| - 1];
      SymKeysInMembers(init, s);
      assert packets == init + [packets[|packets| - 1]];
    }
  }

  /** The collecting loop at lines 179-191. The reader stops the loop at its
      first error, end of stream or not, so `packets` are those it yielded
      before that. */
  method CollectSymKeys(packets: seq<Packet>) returns (symKeys: seq<SymmetricKeyEncrypted>)
    ensures symKeys == SymKeysIn(packets)
  {
    symKeys := [];
    var i := 0;
    while i < |packets|
      invariant 0 <= i <= |packets|
      invariant symKeys == SymKeysIn(packets[..i])
    {
      assert packets[..i + 1][..i] == packets[..i];
      if packets[i].SymKeyEncrypted? {
        symKeys := symKeys + [packets[i].ske];
      }
      i := i + 1;
    }
    assert packets[..i] == packets;
  }

  /** `GetSessionFromSymmetricPacket` as a function of the packets read, the
      password and the symmetric decryptor (`s.Decrypt`). `[]byte(password)`
      is never nil in Go, so the guard at line 195 only asks for a collected
      packet: an empty password is tried like any other. */
  function SymmetricSession(packets: seq<Packet>, password: seq<byte>,
                            decrypt: (SymmetricKeyEncrypted, seq<byte>) -> Option<DecryptedKey>)
    : (r: Result<SessionSplit, ErrorKind>)
    ensures r.Failure? ==> r.error == PasswordIncorrect
    ensures r.Failure? <==> forall i :: 0 <= i < |SymKeysIn(packets)| ==> decrypt(SymKeysIn(packets)[i], password).None?
    ensures r.Success? ==>
              exists i :: 0 <= i < |SymKeysIn(packets)| &&
                decrypt(SymKeysIn(packets)[i], password).Some? &&
                (forall j :: 0 <= j < i ==> decrypt(SymKeysIn(packets)[j], password).None?) &&
                r.value == SessionSplit(decrypt(SymKeysIn(packets)[i], password).value.key,
                                        GetAlgo(decrypt(SymKeysIn(packets)[i], password).value.cipherFunc))
  {
    var ks := SymKeysIn(packets);
    match FirstIndex(ks, s => decrypt(s, password).Some?)
    case None => Failure(PasswordIncorrect)
    case Some(i) =>
      var d := decrypt(ks[i], password).value;
      Success(SessionSplit(d.key, GetAlgo(d.cipherFunc)))
  }

  method GetSessionFromSymmetricPacket(packets: seq<Packet>, password: seq<byte>,
                                       decrypt: (SymmetricKeyEncrypted, seq<byte>) -> Option<DecryptedKey>)
    returns (r: Result<SessionSplit, ErrorKind>)
    ensures r == SymmetricSession(packets, password, decrypt)
  {
    var symKeys := CollectSymKeys(packets);
    if |symKeys| != 0 {
      var i := 0;
      while i < |symKeys|
        invariant 0 <= i <= |symKeys|
        invariant forall j :: 0 <= j < i ==> decrypt(symKeys[j], password).None?
      {
        var d := decrypt(symKeys[i], password);
        if d.Some? {
          FirstIndexUnique(symKeys, s => decrypt(s, password).Some?, i);
          return Success(SessionSplit(d.value.key, GetAlgo(d.value.cipherFunc)));
        }
        i := i + 1;
      }
    }
    return Failure(PasswordIncorrect);
  }

  /** The empty password is not refused on this path: it is offered to every
      collected packet like any other password. */
  lemma EmptyPasswordIsTried(packets: seq<Packet>, decrypt: (SymmetricKeyEncrypted, seq<byte>) -> Option<DecryptedKey>, d: DecryptedKey)
    requires |SymKeysIn(packets)| > 0 && decrypt(SymKeysIn(packets)[0], []) == Some(d)
    ensures SymmetricSession(packets, [], decrypt) == Success(SessionSplit(d.key, GetAlgo(d.cipherFunc)))
  {
  }
}
