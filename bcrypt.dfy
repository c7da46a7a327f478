/** The password hashing of `Admin.hashPassword` and `Admin.validatePassword`
    (bcrypt with 10 salt rounds), as an ideal one-way function: a digest
    records its cost and salt and matches exactly one password. */
module Bcrypt {

  const SaltRounds: nat := 10

  /** A stored password hash. `preimage` is the model's stand-in for the
      bcrypt output; no operation of the services reads it except Compare. */
  datatype Digest = Digest(cost: nat, salt: nat, preimage: string)

  /** `bcrypt.hash(password, 10)`; the random salt is a parameter. */
  function Hash(password: string, salt: nat): (d: Digest)
    ensures d.cost == SaltRounds
    ensures forall p :: Compare(p, d) <==> p == password
  {
    Digest(SaltRounds, salt, password)
  }

  /** `bcrypt.compare(password, digest)`. */
  predicate Compare(password: string, d: Digest) {
    d.preimage == password
  }
}
