/**
  `hashPassword` and `verifyPassword`: the process-wide pepper is appended to the plaintext
  before it reaches bcrypt. bcrypt itself is a foreign library; it is represented by a
  key-derivation function `kdf(salt, input)` supplied with the configuration, and the salt
  bcrypt draws at random is a parameter. The stored hash carries its salt, as bcrypt's does.
 */
module Passwords {

  /** Start-up configuration: the pepper (the server refuses to start without it) and bcrypt. */
  datatype Config = Config(pepper: string, kdf: (string, string) -> string)

  /** A stored bcrypt record: the salt and the digest computed with it. */
  datatype PasswordHash = PasswordHash(salt: string, digest: string)

  function Peppered(cfg: Config, password: string): string
  {
    password + cfg.pepper
  }

  /** `verifyPassword(password, hash)`: recompute with the stored salt and compare. */
  predicate VerifyPassword(cfg: Config, password: string, h: PasswordHash)
  {
    cfg.kdf(h.salt, Peppered(cfg, password)) == h.digest
  }

  /** `hashPassword(password)` with the given fresh salt; the hash verifies its own password. */
  function HashPassword(cfg: Config, password: string, salt: string): (h: PasswordHash)
    ensures h.salt == salt
    ensures VerifyPassword(cfg, password, h)
  {
    PasswordHash(salt, cfg.kdf(salt, Peppered(cfg, password)))
  }

  /** Appending the same pepper keeps distinct passwords distinct. */
  lemma PepperedInjective(cfg: Config, a: string, b: string)
    requires Peppered(cfg, a) == Peppered(cfg, b)
    ensures a == b
  {
    var pa, pb := Peppered(cfg, a), Peppered(cfg, b);
    assert |a| == |b|;
    assert a == pa[..|a|];
    assert b == pb[..|b|];
  }

  /** With a collision-free bcrypt, a hash rejects every password but its own. */
  lemma VerifyRejectsOtherPassword(cfg: Config, password: string, other: string, salt: string)
    requires forall x, y :: cfg.kdf(salt, x) == cfg.kdf(salt, y) ==> x == y
    requires other != password
    ensures !VerifyPassword(cfg, other, HashPassword(cfg, password, salt))
  {
    if VerifyPassword(cfg, other, HashPassword(cfg, password, salt)) {
      PepperedInjective(cfg, other, password);
    }
  }
}
