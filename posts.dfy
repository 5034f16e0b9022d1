/**
  The `/posts/{room}/` routes: create a post in a room, create a reply to a post, list a room's
  posts newest first, and show one post; a post is shown with its replies oldest first
  (`toPostDto`). The creation handlers check only that a session is present, not its expiry.
  `now` stands for `LocalDateTime.now()`; dates stay timestamps (their ISO formatting is not modelled).
 */
module Posts {
  import opened Wrappers
  import opened Query
  import opened Sorting
  import opened Sessions
  import opened Tables

  datatype ReplyDto = ReplyDto(id: int, author: string, createdAt: int, text: string, imageUrl: Option<string>)
  datatype PostDto = PostDto(id: int, author: string, text: string, createdAt: int, room: string,
                             imageUrl: Option<string>, replies: seq<ReplyDto>)

  /** Responses of `POST /posts/{room}/{id}/`. */
  datatype ReplyOutcome =
    | ReplyIgnored               // returns without a response
    | Replied(id: int)           // "ok"
    | ReplyAborted(fault: Fault) // the transaction threw and rolled back

  /** Responses of `POST /posts/{room}/`. */
  datatype PostOutcome =
    | PostIgnored               // returns without a response
    | Posted(id: int)           // "ok"
    | PostAborted(fault: Fault) // the transaction threw and rolled back

  /** Name of the author with the id (the foreign key guarantees there is one). */
  function AuthorName(authors: seq<Author>, id: int): string
  {
    match AuthorById(authors, id)
    case Some(a) => a.name
    case None => ""
  }

  function RoomName(rooms: seq<Room>, id: int): string
  {
    match FirstIndex(rooms, RoomIdIs(id))
    case Some(k) => rooms[k].name
    case None => ""
  }

  function ReplyTime(r: Reply): int { r.createdAt }
  function ReplyDtoTime(d: ReplyDto): int { d.createdAt }
  function NewestFirst(p: Post): int { -p.createdAt }
  function NewestDtoFirst(d: PostDto): int { -d.createdAt }

  /** `ReplyDto(it.id.value, it.author.toAuthorDto(), it.createdAt, it.text, it.imageUrl)`. */
  function RenderReply(authors: seq<Author>): Reply -> ReplyDto
  {
    (r: Reply) => ReplyDto(r.id, AuthorName(authors, r.author), r.createdAt, r.text, r.imageUrl)
  }

  /** A post's replies, in table order. */
  function RepliesOf(replies: seq<Reply>, post: int): (r: seq<Reply>)
    ensures forall k :: 0 <= k < |r| ==> r[k] in replies && r[k].post == post
    ensures forall k :: 0 <= k < |replies| && replies[k].post == post ==> replies[k] in r
  {
    Where(replies, ReplyToPost(post))
  }

  /** `toPostDto`: the post with its replies sorted by `createdAt`, oldest first. */
  function ToPostDto(authors: seq<Author>, rooms: seq<Room>, replies: seq<Reply>, p: Post): (d: PostDto)
    ensures d.id == p.id && d.text == p.text && d.createdAt == p.createdAt && d.imageUrl == p.imageUrl
    ensures d.author == AuthorName(authors, p.author) && d.room == RoomName(rooms, p.room)
    ensures SortedBy(d.replies, ReplyDtoTime)
    ensures multiset(d.replies) == multiset(Map(RenderReply(authors), RepliesOf(replies, p.id)))
    ensures forall t :: WithKey(d.replies, ReplyDtoTime, t)
                        == WithKey(Map(RenderReply(authors), RepliesOf(replies, p.id)), ReplyDtoTime, t)
  {
    var own := RepliesOf(replies, p.id);
    var shown := Map(RenderReply(authors), SortBy(own, ReplyTime));
    MapSortBy(RenderReply(authors), own, ReplyTime, ReplyDtoTime);
    forall t ensures WithKey(shown, ReplyDtoTime, t) == WithKey(Map(RenderReply(authors), own), ReplyDtoTime, t) {
      SortByStable(Map(RenderReply(authors), own), ReplyDtoTime, t);
    }
    PostDto(p.id, AuthorName(authors, p.author), p.text, p.createdAt, RoomName(rooms, p.room), p.imageUrl, shown)
  }

  function RenderPost(authors: seq<Author>, rooms: seq<Room>, replies: seq<Reply>): Post -> PostDto
  {
    (p: Post) => ToPostDto(authors, rooms, replies, p)
  }

  /**
    `GET /posts/{room}/`: the room's posts sorted by `createdAt`, newest first, each with its
    replies. A room that does not exist makes `.first()` throw.
   */
  function ListRoom(db: Database, roomName: string): (r: Result<seq<PostDto>, Fault>)
    reads db
    ensures r.Failure? <==> RoomByName(db.rooms, roomName).None?
    ensures r.Failure? ==> r.error == NoSuchElement
    ensures r.Success? ==>
      var rendered := Map(RenderPost(db.authors, db.rooms, db.replies),
                          Where(db.posts, PostInRoom(RoomByName(db.rooms, roomName).value.id)));
      && SortedBy(r.value, NewestDtoFirst)
      && multiset(r.value) == multiset(rendered)
      && forall t :: WithKey(r.value, NewestDtoFirst, t) == WithKey(rendered, NewestDtoFirst, t)
  {
    match RoomByName(db.rooms, roomName)
    case None => Failure(NoSuchElement)
    case Some(room) =>
      var render := RenderPost(db.authors, db.rooms, db.replies);
      var own := Where(db.posts, PostInRoom(room.id));
      MapSortBy(render, own, NewestFirst, NewestDtoFirst);
      forall t ensures WithKey(Map(render, SortBy(own, NewestFirst)), NewestDtoFirst, t)
                       == WithKey(Map(render, own), NewestDtoFirst, t) {
        SortByStable(Map(render, own), NewestDtoFirst, t);
      }
      Success(Map(render, SortBy(own, NewestFirst)))
  }

  /** `GET /posts/{room}/{id}/`: one post by id; a missing post makes `.first()` throw. */
  function GetPost(db: Database, id: int): (r: Result<PostDto, Fault>)
    reads db
    ensures r.Failure? <==> !HasPost(db.posts, id)
    ensures r.Failure? ==> r.error == NoSuchElement
    ensures r.Success? ==>
      && PostById(db.posts, id).Some?
      && r.value == ToPostDto(db.authors, db.rooms, db.replies, PostById(db.posts, id).value)
      && r.value.id == id
      && multiset(r.value.replies) == multiset(Map(RenderReply(db.authors), RepliesOf(db.replies, id)))
  {
    match PostById(db.posts, id)
    case None => Failure(NoSuchElement)
    case Some(p) => Success(ToPostDto(db.authors, db.rooms, db.replies, p))
  }

  /**
    `POST /posts/{room}/{id}/`: with a session present (its expiry is not checked), add a reply
    by the session's author to post `postId`; a missing author or post quietly does nothing.
   */
  method CreateReply(db: Database, postId: int, text: string, session: Option<AuthSession>, now: int)
    returns (outcome: ReplyOutcome)
    requires db.Valid()
    modifies db
    ensures db.Valid()
    ensures session.None? ==> outcome == ReplyIgnored
    ensures session.Some? ==>
      outcome == (if !HasAuthor(old(db.authors), session.value.userId) || !HasPost(old(db.posts), postId) then ReplyIgnored
                  else if |text| > MAX_VARCHAR_LENGTH then ReplyAborted(ValueTooLong)
                  else Replied(old(db.nextReplyId)))
    ensures outcome.Replied? ==>
      && db.replies == old(db.replies) + [Reply(outcome.id, text, None, session.value.userId, postId, now)]
      && db.nextReplyId == outcome.id + 1
      && db.authors == old(db.authors) && db.nextAuthorId == old(db.nextAuthorId)
      && db.rooms == old(db.rooms) && db.posts == old(db.posts) && db.nextPostId == old(db.nextPostId)
      && db.invites == old(db.invites) && db.inviteLimits == old(db.inviteLimits)
      && db.images == old(db.images)
    ensures !outcome.Replied? ==> unchanged(db)
  {
    if session.None? {
      return ReplyIgnored;
    }
    // transaction {
    var author := AuthorById(db.authors, session.value.userId);
    if author.None? {
      return ReplyIgnored;
    }
    var post := PostById(db.posts, postId);
    if post.None? {
      return ReplyIgnored;
    }
    if |text| > MAX_VARCHAR_LENGTH {
      return ReplyAborted(ValueTooLong);
    }
    var id := db.nextReplyId;
    var reply := Reply(id, text, None, author.value.id, post.value.id, now);
    ReplyAddedKeepsWellFormed(db.replies, id, db.authors, db.posts, reply);
    db.replies := db.replies + [reply];
    db.nextReplyId := id + 1;
    // }
    return Replied(id);
  }

  /**
    `POST /posts/{room}/`: with a session present (its expiry is not checked), add a post by the
    session's author to the room named `roomName`; a missing author or room makes `.first()` throw.
   */
  method CreatePost(db: Database, roomName: string, text: string, session: Option<AuthSession>, now: int)
    returns (outcome: PostOutcome)
    requires db.Valid()
    modifies db
    ensures db.Valid()
    ensures session.None? ==> outcome == PostIgnored
    ensures session.Some? ==>
      outcome == (if !HasAuthor(old(db.authors), session.value.userId) || RoomByName(old(db.rooms), roomName).None?
                  then PostAborted(NoSuchElement)
                  else if |text| > MAX_VARCHAR_LENGTH then PostAborted(ValueTooLong)
                  else Posted(old(db.nextPostId)))
    ensures outcome.Posted? ==>
      && db.posts == old(db.posts)
                     + [Post(outcome.id, text, None, session.value.userId, RoomByName(old(db.rooms), roomName).value.id, now)]
      && db.nextPostId == outcome.id + 1
      && db.authors == old(db.authors) && db.nextAuthorId == old(db.nextAuthorId)
      && db.rooms == old(db.rooms)
      && db.replies == old(db.replies) && db.nextReplyId == old(db.nextReplyId)
      && db.invites == old(db.invites) && db.inviteLimits == old(db.inviteLimits)
      && db.images == old(db.images)
    ensures !outcome.Posted? ==> unchanged(db)
  {
    if session.None? {
      return PostIgnored;
    }
    // transaction {
    var author := AuthorById(db.authors, session.value.userId);
    if author.None? {
      return PostAborted(NoSuchElement);
    }
    var room := RoomByName(db.rooms, roomName);
    if room.None? {
      return PostAborted(NoSuchElement);
    }
    if |text| > MAX_VARCHAR_LENGTH {
      return PostAborted(ValueTooLong);
    }
    var id := db.nextPostId;
    var post := Post(id, text, None, author.value.id, room.value.id, now);
    PostAddedKeepsWellFormed(db.posts, id, db.authors, db.rooms, db.replies, db.nextReplyId, post);
    db.posts := db.posts + [post];
    db.nextPostId := id + 1;
    // }
    return Posted(id);
  }

  /** Neither creation path looks at the expiry: an expired session still posts. */
  method ExpiredSessionStillPosts(db: Database, roomName: string, text: string, uid: int, now: int)
    requires db.Valid()
    requires HasAuthor(db.authors, uid) && RoomByName(db.rooms, roomName).Some? && |text| <= MAX_VARCHAR_LENGTH
    modifies db
  {
    var expired := Some(AuthSession(uid, now - 1));
    assert !Admits(expired, now);
    var outcome := CreatePost(db, roomName, text, expired, now);
    assert outcome.Posted?;
  }
}
