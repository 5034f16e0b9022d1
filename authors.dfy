/**
  The `/author` routes: invite issuance (quota-gated), registration (redeems an unused invite
  and creates the author in one transaction) and login. The session a request carries is the
  `AuthSession` the sessions plugin loaded for it (None when there is none); the session a
  handler sets is returned. `now` is `System.currentTimeMillis()`.
 */
module Authors {
  import opened Wrappers
  import opened Query
  import opened Sessions
  import opened Passwords
  import opened Tables

  /** Responses of `GET /author/invite`. */
  datatype InviteOutcome =
    | NoCode                      // no `code` query parameter: returns without a response
    | SessionTimedOut             // 403 "Session timed out"
    | OutOfInvites                // {"message": "out of invites"}
    | InviteIssued                // {"message": "success"}
    | InviteAborted(fault: Fault) // the transaction threw and rolled back

  /** Responses of `POST /author/register`. */
  datatype RegisterOutcome =
    | Registered(id: int)           // "ok", with a fresh session for the new author
    | RegisterFailed                // 403 "failed": no unused invite with that code
    | RegisterAborted(fault: Fault) // the transaction threw and rolled back

  /** Responses of `POST /author/login`. */
  datatype LoginOutcome = AuthorNotFound | WrongPassword | LoggedIn

  /**
    `GET /author/invite?code=…`: with a live session, take one from the issuer's quota and
    insert the invite `{code, author}`; all in one transaction.
   */
  method IssueInvite(db: Database, code: Option<string>, session: Option<AuthSession>, now: int)
    returns (outcome: InviteOutcome)
    requires db.Valid()
    modifies db
    ensures db.Valid()
    ensures code.None? ==> outcome == NoCode
    ensures code.Some? && !Admits(session, now) ==> outcome == SessionTimedOut
    ensures code.Some? && Admits(session, now) ==>
      var uid := session.value.userId;
      outcome == (if !HasAuthor(old(db.authors), uid) || uid !in old(db.inviteLimits) then InviteAborted(NoSuchElement)
                  else if old(db.inviteLimits)[uid] <= 0 then OutOfInvites
                  else if |code.value| > MAX_CODE_LENGTH then InviteAborted(ValueTooLong)
                  else if CodeTaken(old(db.invites), code.value) then InviteAborted(UniqueViolation)
                  else InviteIssued)
    ensures outcome == InviteIssued ==>
      var uid := session.value.userId;
      && uid in old(db.inviteLimits)
      && db.inviteLimits == old(db.inviteLimits)[uid := old(db.inviteLimits)[uid] - 1]
      && db.invites == old(db.invites) + [Invite(code.value, uid, None)]
      && db.authors == old(db.authors) && db.nextAuthorId == old(db.nextAuthorId)
      && db.rooms == old(db.rooms) && db.posts == old(db.posts) && db.nextPostId == old(db.nextPostId)
      && db.replies == old(db.replies) && db.nextReplyId == old(db.nextReplyId)
      && db.images == old(db.images)
    ensures outcome != InviteIssued ==> unchanged(db)
    ensures QuotasNonNegative(old(db.inviteLimits)) ==> QuotasNonNegative(db.inviteLimits)
  {
    if code.None? {
      return NoCode;
    }
    if session.None? || session.value.expires < now {
      return SessionTimedOut;
    }
    var uid := session.value.userId;
    // transaction {
    var author := AuthorById(db.authors, uid);
    if author.None? || uid !in db.inviteLimits {
      return InviteAborted(NoSuchElement);
    }
    var limit := db.inviteLimits[uid];
    if limit <= 0 {
      return OutOfInvites;
    }
    if |code.value| > MAX_CODE_LENGTH {
      return InviteAborted(ValueTooLong);
    }
    var clash := FirstIndex(db.invites, (i: Invite) => i.code == code.value);
    if clash.Some? {
      return InviteAborted(UniqueViolation);
    }
    InviteAddedKeepsWellFormed(db.invites, db.authors, Invite(code.value, uid, None));
    db.inviteLimits := db.inviteLimits[uid := limit - 1];
    db.invites := db.invites + [Invite(code.value, uid, None)];
    // }
    return InviteIssued;
  }

  /**
    `POST /author/register`: in one transaction, find an unused invite with the code, create
    the author (password hashed with the pepper) and mark the invite used by it; then set a
    session for the new author.
   */
  method Register(db: Database, cfg: Config, name: string, password: string, code: string, salt: string, now: int)
    returns (outcome: RegisterOutcome, setSession: Option<AuthSession>)
    requires db.Valid()
    modifies db
    ensures db.Valid()
    ensures outcome == (if !HasRedeemable(old(db.invites), code) then RegisterFailed
                        else if |name| > MAX_VARCHAR_LENGTH then RegisterAborted(ValueTooLong)
                        else if NameTaken(old(db.authors), name) then RegisterAborted(UniqueViolation)
                        else Registered(old(db.nextAuthorId)))
    ensures outcome.Registered? ==>
      && !HasAuthor(old(db.authors), outcome.id)
      && db.authors == old(db.authors) + [Author(outcome.id, name, HashPassword(cfg, password, salt))]
      && db.nextAuthorId == outcome.id + 1
      && FirstIndex(old(db.invites), Redeemable(code)).Some?
      && (var k := FirstIndex(old(db.invites), Redeemable(code)).value;
          db.invites == old(db.invites)[k := old(db.invites)[k].(usedBy := Some(outcome.id))])
      && setSession == Some(Mint(outcome.id, now))
      && db.inviteLimits == old(db.inviteLimits) && db.rooms == old(db.rooms)
      && db.posts == old(db.posts) && db.nextPostId == old(db.nextPostId)
      && db.replies == old(db.replies) && db.nextReplyId == old(db.nextReplyId)
      && db.images == old(db.images)
    ensures outcome.Registered? ==> !HasRedeemable(db.invites, code)
    ensures !outcome.Registered? ==> unchanged(db) && setSession.None?
  {
    // transaction {
    var found := FirstIndex(db.invites, Redeemable(code));
    if found.None? {
      return RegisterFailed, None;
    }
    if |name| > MAX_VARCHAR_LENGTH {
      return RegisterAborted(ValueTooLong), None;
    }
    var taken := AuthorByName(db.authors, name);
    if taken.Some? {
      return RegisterAborted(UniqueViolation), None;
    }
    var id := db.nextAuthorId;
    var author := Author(id, name, HashPassword(cfg, password, salt));
    var k := found.value;
    ghost var oldInvites := db.invites;
    RegistrationKeepsWellFormed(db.authors, db.nextAuthorId, db.rooms, db.posts, db.nextPostId,
                                db.replies, db.nextReplyId, db.invites, db.images, author, k);
    db.authors := db.authors + [author];
    db.nextAuthorId := id + 1;
    db.invites := db.invites[k := db.invites[k].(usedBy := Some(id))];
    // }
    setSession := Some(Mint(id, now));
    outcome := Registered(id);

    RedeemedNoLongerRedeemable(oldInvites, code, k, id);
  }

  /**
    `POST /author/login`: look the author up by name and check the password. A request that
    already carries a session, expired or not and whoever it belongs to, is answered "ok"
    without a new session; otherwise one is minted for the author.
   */
  method Login(db: Database, cfg: Config, name: string, password: string, session: Option<AuthSession>, now: int)
    returns (outcome: LoginOutcome, setSession: Option<AuthSession>)
    requires db.Valid()
    ensures !NameTaken(db.authors, name) ==> outcome == AuthorNotFound && setSession.None?
    ensures NameTaken(db.authors, name) ==>
      var author := AuthorByName(db.authors, name).value;
      && author in db.authors && author.name == name
      && if !VerifyPassword(cfg, password, author.password) then
           outcome == WrongPassword && setSession.None?
         else
           outcome == LoggedIn && setSession == (if session.Some? then None else Some(Mint(author.id, now)))
  {
    var author := AuthorByName(db.authors, name);
    if author.None? {
      return AuthorNotFound, None;
    }
    if !VerifyPassword(cfg, password, author.value.password) {
      return WrongPassword, None;
    }
    if session.Some? {
      return LoggedIn, None;
    }
    return LoggedIn, Some(Mint(author.value.id, now));
  }

  /** Names are unique, so the author a registration creates is the one found by that name. */
  lemma RegisteredAuthorFoundByName(authors: seq<Author>, a: Author)
    requires !NameTaken(authors, a.name)
    ensures AuthorByName(authors + [a], a.name) == Some(a)
  {
    var all := authors + [a];
    assert all[|authors|] == a;
    assert forall k :: 0 <= k < |authors| ==> all[k] == authors[k];
    assert FirstIndex(all, AuthorNameIs(a.name)) == Some(|authors|);
  }

  /** A registration followed by a login with the same password mints a session when the request carries none. */
  method RegisterThenLogin(db: Database, cfg: Config, name: string, password: string, code: string, salt: string, now: int)
    requires db.Valid()
    requires HasRedeemable(db.invites, code) && |name| <= MAX_VARCHAR_LENGTH && !NameTaken(db.authors, name)
    modifies db
  {
    var registered, s := Register(db, cfg, name, password, code, salt, now);
    assert registered.Registered?;
    var id := registered.id;
    RegisteredAuthorFoundByName(old(db.authors), Author(id, name, HashPassword(cfg, password, salt)));
    var again, s2 := Register(db, cfg, name + "2", password, code, salt, now);
    assert again == RegisterFailed;
    var loggedIn, minted := Login(db, cfg, name, password, None, now + 1);
    assert loggedIn == LoggedIn;
    assert minted == Some(Mint(id, now + 1));
  }

  /** A quota of three: three issuances succeed and leave it at zero; the fourth is refused and changes nothing. */
  method QuotaOfThree(db: Database, session: AuthSession, now: int)
    requires db.Valid()
    requires HasAuthor(db.authors, session.userId) && now <= session.expires
    requires session.userId in db.inviteLimits && db.inviteLimits[session.userId] == 3
    requires forall k :: 0 <= k < |db.invites| ==> |db.invites[k].code| != 1
    modifies db
  {
    var uid := session.userId;
    var first := IssueInvite(db, Some("a"), Some(session), now);
    assert first == InviteIssued;
    var second := IssueInvite(db, Some("b"), Some(session), now);
    assert !CodeTaken(old(db.invites) + [Invite("a", uid, None)], "b");
    assert second == InviteIssued;
    var third := IssueInvite(db, Some("c"), Some(session), now);
    assert !CodeTaken(old(db.invites) + [Invite("a", uid, None), Invite("b", uid, None)], "c");
    assert third == InviteIssued;
    assert db.inviteLimits[uid] == 0;
    var fourth := IssueInvite(db, Some("d"), Some(session), now);
    assert fourth == OutOfInvites;
    assert db.inviteLimits[uid] == 0;
  }
}
