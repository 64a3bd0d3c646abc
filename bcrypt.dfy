/** The password hasher (bcryptjs) as the services use it: `hash(plain, 10)`
    and `compare(plain, stored)`. The cryptography is replaced by an injective
    encoding: a hash carries the version-and-cost prefix, a 22-character salt
    chosen by the caller's environment, and a digest of the plaintext. What the
    services rely on is kept: a hash is never the plaintext, `compare` accepts a
    password against its own hash, and against no other password's hash. */
module Bcrypt {

  /** Version `2a`, cost factor 10. */
  const Prefix: string := "$2a$10$"

  const SaltLength: nat := 22

  /** bcrypt.genSalt output (random, so it is an input of every operation that hashes). */
  type Salt = s: string | |s| == SaltLength witness "......................"

  function Hash(plain: string, salt: Salt): (h: string)
    ensures h != plain
    ensures |h| == |Prefix| + SaltLength + |plain|
  {
    Prefix + salt + plain
  }

  /** bcrypt.compare: recompute with the salt embedded in `hashed` and compare. */
  predicate Compare(plain: string, hashed: string)
  {
    && |hashed| >= |Prefix| + SaltLength
    && hashed[..|Prefix|] == Prefix
    && hashed[|Prefix| + SaltLength..] == plain
  }

  /** Verification accepts a password against any hash of it, whatever the salt. */
  lemma CompareAcceptsOwnHash(plain: string, salt: Salt)
    ensures Compare(plain, Hash(plain, salt))
  {
    var h := Hash(plain, salt);
    assert h[..|Prefix|] == Prefix;
    assert h[|Prefix| + SaltLength..] == plain;
  }

  /** Verification rejects a password against another password's hash. */
  lemma CompareRejectsOtherHash(plain: string, other: string, salt: Salt)
    requires plain != other
    ensures !Compare(plain, Hash(other, salt))
  {
    var h := Hash(other, salt);
    assert h[|Prefix| + SaltLength..] == other;
  }
}
