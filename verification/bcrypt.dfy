/**
 * The password-hashing primitive the interactor relies on, kept abstract.
 *
 * Two facts about it are stated: a password compares equal to a hash made
 * from it, whatever the salt (the postcondition of `Hash`), and comparison
 * recomputes the hash under the stored salt (`CompareOnlyHash`). The digest
 * below is an arbitrary stand-in for the key derivation; no collision-freedom
 * or one-wayness is claimed.
 */
module Bcrypt {

  /** The cost factor the interactor passes to every hash call. */
  const SaltRounds: nat := 10

  /** The random salt bcrypt draws for each hash; the model takes it as an argument. */
  type Salt = string

  /** A stored hash carries the cost and the salt it was made with, as a bcrypt hash string does. */
  datatype PasswordHash = PasswordHash(cost: nat, salt: Salt, digest: nat)

  const Modulus: nat := 0x1_0000_0000_0000_0000

  function Mix(s: string, acc: nat): nat
    decreases |s|
  {
    if s == [] then acc else Mix(s[1..], (acc * 31 + s[0] as int) % Modulus)
  }

  /** Stand-in for the key derivation of a password under a cost and a salt. */
  function Digest(cost: nat, salt: Salt, password: string): nat
  {
    Mix(salt + password, cost)
  }

  /** Hashes a password with the interactor's fixed cost factor under the given salt. */
  function Hash(password: string, salt: Salt): (h: PasswordHash)
    ensures h.cost == SaltRounds && h.salt == salt
    ensures Compare(password, h)
  {
    PasswordHash(SaltRounds, salt, Digest(SaltRounds, salt, password))
  }

  /** Re-derives the digest with the cost and salt recorded in the hash and compares. */
  predicate Compare(password: string, h: PasswordHash)
  {
    h.digest == Digest(h.cost, h.salt, password)
  }

  /** A hash made with the interactor's cost factor accepts a password exactly when it is that password's hash under its own salt. */
  lemma CompareOnlyHash(password: string, h: PasswordHash)
    requires h.cost == SaltRounds
    ensures Compare(password, h) <==> h == Hash(password, h.salt)
  {
  }
}
