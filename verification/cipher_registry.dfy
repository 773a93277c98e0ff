/** The fixed name-to-identifier table of session.go (`symKeyAlgos`) and its
    two lookups, `cipherFunc` (name to id) and `getAlgo` (id to name). The
    identifiers are the symmetric-key algorithm ids of section 9.2 of
    RFC 4880. */
module CipherRegistry {
  import opened Octets

  /** Go's `packet.CipherFunction`, an 8-bit algorithm identifier. */
  type CipherFunction = byte

  const Cipher3DES: CipherFunction := 2
  const CipherCAST5: CipherFunction := 3
  const CipherAES128: CipherFunction := 7
  const CipherAES192: CipherFunction := 8
  const CipherAES256: CipherFunction := 9

  const DefaultAlgo: string := "aes256"

  /** `symKeyAlgos`. */
  const SymKeyAlgos: map<string, CipherFunction> := map[
    "3des" := Cipher3DES,
    "cast5" := CipherCAST5,
    "aes128" := CipherAES128,
    "aes192" := CipherAES192,
    "aes256" := CipherAES256
  ]

  /** The names of the table, in one fixed order. Go visits the map in an
      unspecified order; `GetAlgo` proves the order cannot matter. */
  const AlgoNames: seq<string> := ["3des", "cast5", "aes128", "aes192", "aes256"]

  predicate KnownCipher(id: CipherFunction) {
    exists name :: name in SymKeyAlgos && SymKeyAlgos[name] == id
  }

  /** `cipherFunc`: the table's id for a known name, AES-256 for any other. */
  function CipherFunc(algo: string): (cf: CipherFunction)
    ensures algo in SymKeyAlgos ==> cf == SymKeyAlgos[algo]
    ensures algo !in SymKeyAlgos ==> cf == CipherAES256
    ensures KnownCipher(cf)
  {
    if algo in SymKeyAlgos then SymKeyAlgos[algo]
    else assert SymKeyAlgos[DefaultAlgo] == CipherAES256; CipherAES256
  }

  /** The early-exit scan `for k, v := range symKeyAlgos { if v == cipher
      { algo = k; break } }` over the names still to visit. */
  function FindName(names: seq<string>, cipher: CipherFunction, default: string): (algo: string)
    requires forall i :: 0 <= i < |names| ==> names[i] in SymKeyAlgos
    ensures (exists i :: 0 <= i < |names| && SymKeyAlgos[names[i]] == cipher) ==>
              algo in names && SymKeyAlgos[algo] == cipher
    ensures (forall i :: 0 <= i < |names| ==> SymKeyAlgos[names[i]] != cipher) ==> algo == default
  {
    if names == [] then default
    else if SymKeyAlgos[names[0]] == cipher then names[0]
    else FindName(names[1..], cipher, default)
  }

  /** No two names share an identifier, so whichever order Go visits the
      map in, the scan stops at the same name. */
  lemma SymKeyAlgosInjective(m: string, n: string)
    requires m in SymKeyAlgos && n in SymKeyAlgos
    requires SymKeyAlgos[m] == SymKeyAlgos[n]
    ensures m == n
  {
  }

  /** `getAlgo`: the unique name whose id is `cipher`, "aes256" for an
      identifier outside the table. The same scan is inlined in
      `getSessionSplit`. */
  function GetAlgo(cipher: CipherFunction): (algo: string)
    ensures KnownCipher(cipher) ==> algo in SymKeyAlgos && SymKeyAlgos[algo] == cipher
    ensures forall name :: name in SymKeyAlgos && SymKeyAlgos[name] == cipher ==> algo == name
    ensures !KnownCipher(cipher) ==> algo == DefaultAlgo
    ensures algo in SymKeyAlgos
  {
    assert forall name :: name in SymKeyAlgos <==> name in AlgoNames;
    FindName(AlgoNames, cipher, DefaultAlgo)
  }

  /** Name to id to name is the identity on the five names. */
  lemma GetAlgoOfCipherFunc(algo: string)
    requires algo in SymKeyAlgos
    ensures GetAlgo(CipherFunc(algo)) == algo
  {
  }

  /** Id to name to id is the identity on the five ids. */
  lemma CipherFuncOfGetAlgo(cipher: CipherFunction)
    requires KnownCipher(cipher)
    ensures CipherFunc(GetAlgo(cipher)) == cipher
  {
  }

  /** An unknown name is silently taken as AES-256, and an unknown id is
      silently reported as "aes256", which then maps back to AES-256: the
      declared algorithm changes without any error. */
  lemma UnknownFallsBackToAes256(algo: string, cipher: CipherFunction)
    requires algo !in SymKeyAlgos
    requires cipher !in {Cipher3DES, CipherCAST5, CipherAES128, CipherAES192, CipherAES256}
    ensures CipherFunc(algo) == CipherAES256
    ensures GetAlgo(cipher) == DefaultAlgo
    ensures CipherFunc(GetAlgo(cipher)) == CipherAES256 != cipher
  {
  }

  /** The known identifiers are exactly those of section 9.2 of RFC 4880 that
      the table lists. */
  lemma KnownCiphers(cipher: CipherFunction)
    ensures KnownCipher(cipher) <==> cipher in {2, 3, 7, 8, 9}
  {
    if cipher in {2, 3, 7, 8, 9} {
      var name := AlgoNames[if cipher == 2 then 0 else if cipher == 3 then 1 else cipher - 5];
      assert SymKeyAlgos[name] == cipher;
    }
  }
}
