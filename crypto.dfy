/**
 * The symmetric cipher the notes use (CryptoJS AES with a passphrase). The
 * cipher itself is outside the model: it is a pair of operations handed to
 * the handlers, and the properties the board relies on are stated as
 * predicates over that pair.
 */
module Crypto {
  import opened Wrappers

  /**
   * `encrypt(plaintext, password, salt)` gives the ciphertext text, where
   * `salt` is the random salt the cipher draws afresh on every call, so two
   * encryptions of one text differ; `decrypt(ciphertext, password)` gives the
   * UTF-8 plaintext, or None when decryption or UTF-8 decoding throws.
   */
  datatype Cipher = Cipher(encrypt: (string, string, nat) -> string, decrypt: (string, string) -> Option<string>)

  /** Decrypting with the password used to encrypt gives the plaintext back. */
  ghost predicate RoundTrips(c: Cipher) {
    forall text, password, salt :: c.decrypt(c.encrypt(text, password, salt), password) == Some(text)
  }

  /** Decrypting with any other password fails observably. */
  ghost predicate RejectsOtherPasswords(c: Cipher) {
    forall text, password, salt, other :: other != password ==> c.decrypt(c.encrypt(text, password, salt), other).None?
  }

  /**
   * The decrypt step of the password handler: the handler treats a thrown
   * exception and an empty plaintext alike as a wrong password.
   */
  function Unseal(c: Cipher, ciphertext: string, password: string): (r: Option<string>)
    ensures r.Some? ==> r.value != [] && c.decrypt(ciphertext, password) == r
    ensures r.None? ==> c.decrypt(ciphertext, password) in {None, Some([])}
  {
    match c.decrypt(ciphertext, password)
    case None => None
    case Some(plain) => if plain == [] then None else Some(plain)
  }

  /** A non-empty text sealed with a password unseals with that password. */
  lemma UnsealSealed(c: Cipher, text: string, password: string, salt: nat)
    requires RoundTrips(c) && text != []
    ensures Unseal(c, c.encrypt(text, password, salt), password) == Some(text)
  {
  }

  /** Under a cipher that rejects other passwords, a wrong password never unseals. */
  lemma UnsealOtherFails(c: Cipher, text: string, password: string, salt: nat, other: string)
    requires RejectsOtherPasswords(c) && other != password
    ensures Unseal(c, c.encrypt(text, password, salt), other).None?
  {
  }
}
