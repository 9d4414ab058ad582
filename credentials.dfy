/** A stand-in for bcrypt, the password hashing the user store relies on.

    Only the relation between a stored hash and a password attempt is modelled:
    GenerateFromPassword becomes `Hash` (its random salt is a parameter) and
    CompareHashAndPassword becomes `Verifies`. The one-wayness of bcrypt is not
    modelled: this hash keeps the password readable after the salt. */
module Credentials {

  /** Version and cost tag that every hash made with bcrypt.DefaultCost (10) starts with. */
  const HashTag: string := "$2a$10$"

  /** bcrypt draws a fresh 22-character salt on every GenerateFromPassword call. */
  const SaltLength: nat := 22

  type Salt = s: string | |s| == SaltLength witness "......................"

  /** True when `h` is a well-formed hash and `attempt` is the password it was made from. */
  predicate Verifies(h: string, attempt: string)
  {
    && |h| >= |HashTag| + SaltLength
    && h[..|HashTag|] == HashTag
    && h[|HashTag| + SaltLength..] == attempt
  }

  /** The stored form of `password` under `salt`; never the plaintext itself. */
  function Hash(salt: Salt, password: string): (h: string)
    ensures h != password
    ensures Verifies(h, password)
  {
    HashTag + salt + password
  }

  /** A hash verifies exactly the password it was made from, whatever the salt. */
  lemma VerifiesExactly(salt: Salt, password: string, attempt: string)
    ensures Verifies(Hash(salt, password), attempt) <==> attempt == password
  {
    var h := Hash(salt, password);
    assert h[|HashTag| + SaltLength..] == password;
  }
}
