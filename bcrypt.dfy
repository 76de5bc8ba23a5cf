/**
 * A stand-in for the BCrypt library (`BcryptUtil.bcryptHash`,
 * `BcryptUtil.matches`). The model relies on one fact about it only: a
 * password matches its own hash. A digest is a value of its own type, so a
 * stored digest can never be a plaintext string.
 */
module Bcrypt {

  datatype Digest = Digest(value: nat)

  const Modulus: nat := 0x1_0000_0000_0000_0000

  /** A 64-bit polynomial fold over the code points; salting is not modelled. */
  function Fold(p: string): (h: nat)
    ensures h < Modulus
  {
    if p == [] then 0 else (Fold(p[..|p| - 1]) * 31 + p[|p| - 1] as int) % Modulus
  }

  function Hash(password: string): (h: Digest)
    ensures Matches(password, h)
  {
    Digest(Fold(password))
  }

  predicate Matches(password: string, h: Digest) {
    Digest(Fold(password)) == h
  }
}
