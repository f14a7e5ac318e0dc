/** The AEAD configurations of srp/suites.py, over an ideal AEAD (sections 2.1
    and 2.2 of RFC 5116): sealing records what was sealed, and opening succeeds
    exactly on recorded (nonce, output, associated data) triples. */
module Suites {
  import opened Basics
  import opened Header

  const NONCE_LEN := 12
  const AES_GCM_ID := 0x01
  const CHACHA20_POLY1305_ID := 0x02

  predicate KnownSuite(suiteId: int) {
    suiteId == AES_GCM_ID || suiteId == CHACHA20_POLY1305_ID
  }

  /** The encryption function of one key: (nonce, plaintext, associated data) to
      ciphertext with a 16-byte tag appended.  Nothing else is known about it. */
  type Cipher = f: (Bytes, Bytes, Bytes) -> Bytes | TagAppended(f)
    ghost witness (n: Bytes, p: Bytes, a: Bytes) => p + seq(TAG_LEN, _ => 0)

  ghost predicate TagAppended(f: (Bytes, Bytes, Bytes) -> Bytes) {
    forall n: Bytes, p: Bytes, a: Bytes :: |f(n, p, a)| == |p| + TAG_LEN
  }

  /** A decryption backend: (nonce, ciphertext and tag, associated data) to the
      plaintext, or nothing where the library raises InvalidTag. */
  type Opener = (Bytes, Bytes, Bytes) -> Option<Bytes>

  /** One call of `seal`. */
  datatype SealEntry = SealEntry(nonce: Bytes, aad: Bytes, plaintext: Bytes, output: Bytes)

  /** The plaintext of the first recorded triple that matches. */
  function Lookup(table: seq<SealEntry>, nonce: Bytes, ciphertextAndTag: Bytes, aad: Bytes): Option<Bytes> {
    if table == [] then None
    else if table[0].nonce == nonce && table[0].output == ciphertextAndTag && table[0].aad == aad
    then Some(table[0].plaintext)
    else Lookup(table[1..], nonce, ciphertextAndTag, aad)
  }

  function TableOpener(table: seq<SealEntry>): Opener {
    (nonce: Bytes, ciphertextAndTag: Bytes, aad: Bytes) => Lookup(table, nonce, ciphertextAndTag, aad)
  }

  /** AeadSuite.open around a decryption backend. */
  function OpenWith(opener: Opener, nonce: Bytes, ciphertextAndTag: Bytes, aad: Bytes): Result<Bytes, SrpError> {
    if |nonce| != NONCE_LEN then Failure(ConfigurationError)
    else if |ciphertextAndTag| < TAG_LEN then Failure(AuthenticationFailure)
    else
      match opener(nonce, ciphertextAndTag, aad)
      case Some(plaintext) => Success(plaintext)
      case None => Failure(AuthenticationFailure)
  }

  /** The guards around the backend: a nonce of the wrong length is a caller's
      error, and fewer than 16 bytes cannot authenticate. */
  lemma OpenGuards(opener: Opener, nonce: Bytes, ciphertextAndTag: Bytes, aad: Bytes)
    ensures OpenWith(opener, nonce, ciphertextAndTag, aad) ==
              if |nonce| != 12 then Failure(ConfigurationError)
              else if |ciphertextAndTag| < 16 || opener(nonce, ciphertextAndTag, aad).None?
              then Failure(AuthenticationFailure)
              else Success(opener(nonce, ciphertextAndTag, aad).value)
  {}

  /** The bytes that name the two configurations, and no other does. */
  lemma SuiteBytes(suiteId: int)
    ensures AES_GCM_ID == 0x01 && CHACHA20_POLY1305_ID == 0x02
    ensures KnownSuite(suiteId) <==> suiteId == 0x01 || suiteId == 0x02
  {}

  ghost predicate NonceUnique(table: seq<SealEntry>) {
    forall i, j :: 0 <= i < j < |table| ==> table[i].nonce != table[j].nonce
  }

  lemma EntryByNonce(table: seq<SealEntry>, e: SealEntry, f: SealEntry)
    requires NonceUnique(table) && e in table && f in table && e.nonce == f.nonce
    ensures e == f
  {
    var i :| 0 <= i < |table| && table[i] == e;
    var j :| 0 <= j < |table| && table[j] == f;
    assert i == j;
  }

  /** Whatever opens was sealed. */
  lemma {:induction false} LookupIsSealed(table: seq<SealEntry>, nonce: Bytes, output: Bytes, aad: Bytes)
    ensures Lookup(table, nonce, output, aad).Some?
            ==> SealEntry(nonce, aad, Lookup(table, nonce, output, aad).value, output) in table
  {
    if table != [] && !(table[0].nonce == nonce && table[0].output == output && table[0].aad == aad) {
      LookupIsSealed(table[1..], nonce, output, aad);
    }
  }

  /** Whatever was sealed opens, to some plaintext. */
  lemma {:induction false} SealedIsFound(table: seq<SealEntry>, e: SealEntry)
    requires e in table
    ensures Lookup(table, e.nonce, e.output, e.aad).Some?
  {
    if table[0] != e {
      SealedIsFound(table[1..], e);
    }
  }

  /** When no nonce was reused, opening is a function of the sealed triples: it
      yields a plaintext exactly when that plaintext was sealed to that output. */
  lemma OpenIsExact(table: seq<SealEntry>, nonce: Bytes, output: Bytes, aad: Bytes, plaintext: Bytes)
    requires NonceUnique(table)
    ensures Lookup(table, nonce, output, aad) == Some(plaintext)
            <==> SealEntry(nonce, aad, plaintext, output) in table
  {
    LookupIsSealed(table, nonce, output, aad);
    var e := SealEntry(nonce, aad, plaintext, output);
    if e in table {
      SealedIsFound(table, e);
      EntryByNonce(table, e, SealEntry(nonce, aad, Lookup(table, nonce, output, aad).value, output));
    }
  }

  /** With a reused nonce the same triple can stand for two plaintexts, so that
      what it opens to is no longer determined by what was sealed. */
  lemma NonceReuseIsAmbiguous(e: SealEntry, other: Bytes)
    requires e.plaintext != other
    ensures var table := [e, e.(plaintext := other)];
            && !NonceUnique(table)
            && e in table && e.(plaintext := other) in table
            && Lookup(table, e.nonce, e.output, e.aad) != Some(other)
  {
    var table := [e, e.(plaintext := other)];
    assert table[0] == e && table[1] == e.(plaintext := other);
    assert table[0].nonce == table[1].nonce;
  }

  /** One key, shared by a sender and a receiver. */
  class IdealAead {
    const suiteId: int
    const cipher: Cipher
    var table: seq<SealEntry>

    constructor (suiteId: int, cipher: Cipher)
      ensures this.suiteId == suiteId && this.cipher == cipher && table == []
    {
      this.suiteId := suiteId;
      this.cipher := cipher;
      table := [];
    }

    method Seal(nonce: Bytes, plaintext: Bytes, aad: Bytes) returns (r: Result<Bytes, SrpError>)
      modifies this
      ensures if |nonce| != 12 then r == Failure(ConfigurationError) && table == old(table)
              else
                && r.Success? && |r.value| == |plaintext| + 16
                && r.value == cipher(nonce, plaintext, aad)
                && table == old(table) + [SealEntry(nonce, aad, plaintext, r.value)]
    {
      if |nonce| != NONCE_LEN {
        return Failure(ConfigurationError);
      }
      var output := cipher(nonce, plaintext, aad);
      table := table + [SealEntry(nonce, aad, plaintext, output)];
      return Success(output);
    }

    function Open(nonce: Bytes, ciphertextAndTag: Bytes, aad: Bytes): Result<Bytes, SrpError>
      reads this
    {
      OpenWith(TableOpener(table), nonce, ciphertextAndTag, aad)
    }
  }
}
