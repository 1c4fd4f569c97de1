/**
 * The cryptographic primitives the services call, as injected functions.
 * Nothing about them is assumed except, where a lemma needs it, `Sound`.
 */
module Crypto {

  /** The cost factor passed to `bcrypt.hash` everywhere in the services. */
  const SALT_ROUNDS: nat := 10

  datatype Crypto = Crypto(
    /** bcrypt.hash(plaintext, rounds) with the random salt made an explicit argument */
    bcryptHash: (string, nat, string) -> string,
    /** bcrypt.compare(plaintext, storedHash) */
    bcryptCompare: (string, string) -> bool,
    /** createHash('sha256').update(s).digest('hex') */
    sha256Hex: string -> string)

  /**
   * What the lemmas may rely on: a bcrypt hash verifies against its own
   * plaintext, and two different reset secrets never share a SHA-256 digest.
   */
  ghost predicate Sound(c: Crypto) {
    (forall p, rounds, salt :: c.bcryptCompare(p, c.bcryptHash(p, rounds, salt))) &&
    (forall a, b :: c.sha256Hex(a) == c.sha256Hex(b) ==> a == b)
  }
}
