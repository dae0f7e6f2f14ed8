/** `EncryptionService`: guards around a symmetric cipher. Empty and absent
    inputs pass through untouched, and a token the cipher rejects decrypts
    to `None` instead of raising. The cipher is fixed once, when the class
    is loaded, and both operations are pure functions of it. */
module EncryptionService {
  import opened Optional

  /** The Fernet instance built from `ENCRYPTION_KEY`, seen only through its
      two operations: `encrypt` always yields a token, `decrypt` either
      yields the plaintext or rejects the token (`None`). */
  datatype Cipher = Cipher(encryptToken: string -> string, decryptToken: string -> Option<string>)

  /** What Fernet promises of a key: a token of non-empty text is non-empty
      and decrypts back to that text. */
  ghost predicate RoundTrips(cipher: Cipher) {
    forall text: string :: text != [] ==>
      cipher.encryptToken(text) != [] && cipher.decryptToken(cipher.encryptToken(text)) == Some(text)
  }

  /** `encrypt`: `None` and `""` are returned as given, anything else is
      replaced by its token. */
  function Encrypt(cipher: Cipher, data: Option<string>): (r: Option<string>)
    ensures data.None? ==> r.None?
    ensures data == Some([]) ==> r == data
    ensures data.Some? && data.value != [] ==> r == Some(cipher.encryptToken(data.value))
  {
    match data
    case None => data
    case Some(text) => if text == [] then data else Some(cipher.encryptToken(text))
  }

  /** `decrypt`: `None` and `""` are returned as given, a token the cipher
      accepts gives its plaintext, and a token it rejects gives `None`. */
  function Decrypt(cipher: Cipher, encryptedData: Option<string>): (r: Option<string>)
    ensures encryptedData.None? ==> r.None?
    ensures encryptedData == Some([]) ==> r == encryptedData
    ensures encryptedData.Some? && encryptedData.value != [] ==>
      r == cipher.decryptToken(encryptedData.value)
  {
    match encryptedData
    case None => encryptedData
    case Some(token) => if token == [] then encryptedData else cipher.decryptToken(token)
  }

  /** An absent passphrase stays absent, and a present one stays present. */
  lemma EncryptKeepsPresence(cipher: Cipher, data: Option<string>)
    ensures Encrypt(cipher, data).Some? <==> data.Some?
  {
  }

  /** `decrypt(encrypt(x)) == x` for empty and absent `x`, whatever the
      cipher. */
  lemma EmptyRoundTrip(cipher: Cipher, data: Option<string>)
    requires data.None? || data == Some([])
    ensures Decrypt(cipher, Encrypt(cipher, data)) == data
  {
  }

  /** `decrypt(encrypt(x)) == x` for every `x` when the cipher round-trips. */
  lemma RoundTrip(cipher: Cipher, data: Option<string>)
    requires RoundTrips(cipher)
    ensures Decrypt(cipher, Encrypt(cipher, data)) == data
  {
  }

  /** A non-empty token the cipher rejects decrypts to `None`. */
  lemma RejectedTokenIsNone(cipher: Cipher, token: string)
    requires token != [] && cipher.decryptToken(token).None?
    ensures Decrypt(cipher, Some(token)) == None
  {
  }
}
