/**
  The session payload `AuthSession(userId, expires)` and the rule every gated handler applies to
  it: a request is rejected when it carries no session or when `expires < now`, so a session is
  still accepted at the very millisecond it expires. Times are milliseconds since the epoch.
 */
module Sessions {
  import opened Wrappers

  /** Lifetime of a minted session: 24 hours in milliseconds. */
  const SESSION_TTL_MS: int := 3600 * 1000 * 24

  datatype AuthSession = AuthSession(userId: int, expires: int)

  /** The session check of the invite and upload handlers. */
  predicate Admits(session: Option<AuthSession>, now: int)
  {
    match session
    case None => false
    case Some(s) => !(s.expires < now)
  }

  /** The session that registration and login set. */
  function Mint(userId: int, now: int): (s: AuthSession)
    ensures s.userId == userId
    ensures s.expires == now + 86_400_000
  {
    AuthSession(userId, now + SESSION_TTL_MS)
  }

  /** A minted session is admitted exactly up to and including its expiry instant. */
  lemma MintedAdmittedUntilExpiry(userId: int, minted: int, now: int)
    ensures Admits(Some(Mint(userId, minted)), now) <==> now <= minted + 86_400_000
  {
  }

  /** The boundary: a session whose expiry equals the current time is still accepted. */
  lemma AdmitsAtExpiry(s: AuthSession)
    ensures Admits(Some(s), s.expires)
    ensures !Admits(Some(s), s.expires + 1)
    ensures !Admits(None, s.expires)
  {
  }
}
