/**
  The relational schema the handlers work on, held in memory: one sequence of rows per table
  (in table order) and the invite quota as a map from author to remaining invites. `Valid()`
  is what the database itself enforces: the unique indexes (`authors.name`, `rooms.name`,
  `invite.code`), the primary keys, and the foreign keys of posts, replies, invites and images.
  Ids come from per-table counters, as Postgres serial columns do.
 */
module Tables {
  import opened Wrappers
  import opened Query
  import opened Passwords

  /** Length of the `varchar(200)` columns: `authors.name`, `posts.text`, `replies.text`. */
  const MAX_VARCHAR_LENGTH: int := 200
  /** Length of the `varchar(100)` column `invite.code`. */
  const MAX_CODE_LENGTH: int := 100

  datatype Author = Author(id: int, name: string, password: PasswordHash)
  datatype Room = Room(id: int, name: string)
  datatype Post = Post(id: int, text: string, imageUrl: Option<string>, author: int, room: int, createdAt: int)
  datatype Reply = Reply(id: int, text: string, imageUrl: Option<string>, author: int, post: int, createdAt: int)
  datatype Invite = Invite(code: string, author: int, usedBy: Option<int>)
  datatype Image = Image(url: string, size: int, createdAt: int, author: int)

  /** The exceptions a transaction can throw; each rolls the whole transaction back. */
  datatype Fault =
    | NoSuchElement    // `.first()` on an empty result
    | UniqueViolation  // an insert against a unique index
    | ValueTooLong     // a string longer than its varchar column

  // Conditions of the `find { … }` queries.

  function AuthorIdIs(id: int): Author -> bool { (a: Author) => a.id == id }
  function AuthorNameIs(name: string): Author -> bool { (a: Author) => a.name == name }
  function RoomIdIs(id: int): Room -> bool { (r: Room) => r.id == id }
  function RoomNameIs(name: string): Room -> bool { (r: Room) => r.name == name }
  function PostIdIs(id: int): Post -> bool { (p: Post) => p.id == id }
  function PostInRoom(room: int): Post -> bool { (p: Post) => p.room == room }
  function ReplyToPost(post: int): Reply -> bool { (r: Reply) => r.post == post }
  function ImageByAuthor(author: int): Image -> bool { (i: Image) => i.author == author }
  /** `(InviteTable.code eq code) and (InviteTable.usedBy eq null)`. */
  function Redeemable(code: string): Invite -> bool { (i: Invite) => i.code == code && i.usedBy.None? }

  /** `AuthorEntity.find { AuthorsTable.id eq id }.firstOrNull()`. */
  function AuthorById(authors: seq<Author>, id: int): (r: Option<Author>)
    ensures r.Some? ==> r.value in authors && r.value.id == id
    ensures r.None? <==> !HasAuthor(authors, id)
  {
    match FirstIndex(authors, AuthorIdIs(id))
    case None => None
    case Some(k) => Some(authors[k])
  }

  /** `AuthorEntity.find(AuthorsTable.name eq name).firstOrNull()`. */
  function AuthorByName(authors: seq<Author>, name: string): (r: Option<Author>)
    ensures r.Some? ==> r.value in authors && r.value.name == name
    ensures r.None? <==> !NameTaken(authors, name)
  {
    match FirstIndex(authors, AuthorNameIs(name))
    case None => None
    case Some(k) => Some(authors[k])
  }

  /** `RoomEntity.find { RoomTable.name eq name }.firstOrNull()`. */
  function RoomByName(rooms: seq<Room>, name: string): (r: Option<Room>)
    ensures r.Some? ==> r.value in rooms && r.value.name == name && HasRoom(rooms, r.value.id)
    ensures r.None? <==> forall k :: 0 <= k < |rooms| ==> rooms[k].name != name
  {
    match FirstIndex(rooms, RoomNameIs(name))
    case None => None
    case Some(k) => Some(rooms[k])
  }

  /** `PostEntity.find { PostsTable.id eq id }.firstOrNull()`. */
  function PostById(posts: seq<Post>, id: int): (r: Option<Post>)
    ensures r.Some? ==> r.value in posts && r.value.id == id
    ensures r.None? <==> !HasPost(posts, id)
  {
    match FirstIndex(posts, PostIdIs(id))
    case None => None
    case Some(k) => Some(posts[k])
  }

  /** Number of images an author has uploaded: `ImageEntity.count(ImageTable.author eq author)`. */
  function ImageCount(images: seq<Image>, author: int): (n: nat)
    ensures n <= |images|
    ensures n == 0 <==> forall k :: 0 <= k < |images| ==> images[k].author != author
  {
    CountZero(images, ImageByAuthor(author));
    Count(images, ImageByAuthor(author))
  }

  ghost predicate HasAuthor(authors: seq<Author>, id: int)
  {
    exists k :: 0 <= k < |authors| && authors[k].id == id
  }

  ghost predicate NameTaken(authors: seq<Author>, name: string)
  {
    exists k :: 0 <= k < |authors| && authors[k].name == name
  }

  ghost predicate HasRoom(rooms: seq<Room>, id: int)
  {
    exists k :: 0 <= k < |rooms| && rooms[k].id == id
  }

  ghost predicate HasPost(posts: seq<Post>, id: int)
  {
    exists k :: 0 <= k < |posts| && posts[k].id == id
  }

  ghost predicate CodeTaken(invites: seq<Invite>, code: string)
  {
    exists k :: 0 <= k < |invites| && invites[k].code == code
  }

  /** Some invite with the code is still unused. */
  ghost predicate HasRedeemable(invites: seq<Invite>, code: string)
  {
    exists k :: 0 <= k < |invites| && invites[k].code == code && invites[k].usedBy.None?
  }

  /** Primary key below the serial counter; unique index on `name`. */
  ghost predicate AuthorsWellFormed(authors: seq<Author>, nextId: int)
  {
    && (forall k :: 0 <= k < |authors| ==> authors[k].id < nextId)
    && (forall i, j :: 0 <= i < j < |authors| ==> authors[i].id != authors[j].id)
    && (forall i, j :: 0 <= i < j < |authors| ==> authors[i].name != authors[j].name)
  }

  ghost predicate RoomsWellFormed(rooms: seq<Room>)
  {
    && (forall i, j :: 0 <= i < j < |rooms| ==> rooms[i].id != rooms[j].id)
    && (forall i, j :: 0 <= i < j < |rooms| ==> rooms[i].name != rooms[j].name)
  }

  ghost predicate PostsWellFormed(posts: seq<Post>, nextId: int, authors: seq<Author>, rooms: seq<Room>)
  {
    && (forall k :: 0 <= k < |posts| ==> posts[k].id < nextId)
    && (forall i, j :: 0 <= i < j < |posts| ==> posts[i].id != posts[j].id)
    && (forall k :: 0 <= k < |posts| ==> HasAuthor(authors, posts[k].author) && HasRoom(rooms, posts[k].room))
  }

  ghost predicate RepliesWellFormed(replies: seq<Reply>, nextId: int, authors: seq<Author>, posts: seq<Post>)
  {
    && (forall k :: 0 <= k < |replies| ==> replies[k].id < nextId)
    && (forall i, j :: 0 <= i < j < |replies| ==> replies[i].id != replies[j].id)
    && (forall k :: 0 <= k < |replies| ==> HasAuthor(authors, replies[k].author) && HasPost(posts, replies[k].post))
  }

  /** Unique index on `code`; issuer and redeemer are authors. */
  ghost predicate InvitesWellFormed(invites: seq<Invite>, authors: seq<Author>)
  {
    && (forall i, j :: 0 <= i < j < |invites| ==> invites[i].code != invites[j].code)
    && (forall k :: 0 <= k < |invites| ==> HasAuthor(authors, invites[k].author))
    && (forall k :: 0 <= k < |invites| && invites[k].usedBy.Some? ==> HasAuthor(authors, invites[k].usedBy.value))
  }

  ghost predicate ImagesWellFormed(images: seq<Image>, authors: seq<Author>)
  {
    forall k :: 0 <= k < |images| ==> HasAuthor(authors, images[k].author)
  }

  /** Every remaining-invites counter is non-negative. */
  ghost predicate QuotasNonNegative(limits: map<int, int>)
  {
    forall a :: a in limits ==> limits[a] >= 0
  }

  /** Adding an author keeps every existing id an author's. */
  lemma HasAuthorGrows(authors: seq<Author>, a: Author, id: int)
    requires HasAuthor(authors, id)
    ensures HasAuthor(authors + [a], id)
  {
    var k :| 0 <= k < |authors| && authors[k].id == id;
    assert (authors + [a])[k] == authors[k];
  }

  /** Every author id stays an author's when an author is added. */
  lemma AuthorsGrow(authors: seq<Author>, a: Author)
    ensures forall id :: HasAuthor(authors, id) ==> HasAuthor(authors + [a], id)
    ensures HasAuthor(authors + [a], a.id)
  {
    forall id | HasAuthor(authors, id) ensures HasAuthor(authors + [a], id) {
      HasAuthorGrows(authors, a, id);
    }
    assert (authors + [a])[|authors|] == a;
  }

  /** Every post id stays a post's when a post is added. */
  lemma PostsGrow(posts: seq<Post>, p: Post)
    ensures forall id :: HasPost(posts, id) ==> HasPost(posts + [p], id)
  {
    forall id | HasPost(posts, id) ensures HasPost(posts + [p], id) {
      var k :| 0 <= k < |posts| && posts[k].id == id;
      assert (posts + [p])[k] == posts[k];
    }
  }

  /** Marking the first unused invite with a code as used leaves no unused invite with that code, because codes are unique. */
  lemma RedeemedNoLongerRedeemable(invites: seq<Invite>, code: string, k: nat, id: int)
    requires forall i, j :: 0 <= i < j < |invites| ==> invites[i].code != invites[j].code
    requires k < |invites| && invites[k].code == code
    ensures !HasRedeemable(invites[k := invites[k].(usedBy := Some(id))], code)
  {
    var r := invites[k := invites[k].(usedBy := Some(id))];
    assert r[k].usedBy.Some?;
  }

  /** Inserting an unused invite with a fresh code, issued by an author, keeps the invites table well formed. */
  lemma InviteAddedKeepsWellFormed(invites: seq<Invite>, authors: seq<Author>, inv: Invite)
    requires InvitesWellFormed(invites, authors)
    requires HasAuthor(authors, inv.author) && inv.usedBy.None? && !CodeTaken(invites, inv.code)
    ensures InvitesWellFormed(invites + [inv], authors)
  {
    var all := invites + [inv];
    forall i, j | 0 <= i < j < |all| ensures all[i].code != all[j].code {
      if j == |invites| {
        assert all[i] == invites[i];
      }
    }
  }

  /**
    Registering author `a` under the next serial id and an unused name, and marking invite `k`
    as used by it, keeps every table well formed.
   */
  lemma RegistrationKeepsWellFormed(authors: seq<Author>, nextAuthorId: int, rooms: seq<Room>,
                                    posts: seq<Post>, nextPostId: int, replies: seq<Reply>, nextReplyId: int,
                                    invites: seq<Invite>, images: seq<Image>, a: Author, k: nat)
    requires AuthorsWellFormed(authors, nextAuthorId)
    requires PostsWellFormed(posts, nextPostId, authors, rooms)
    requires RepliesWellFormed(replies, nextReplyId, authors, posts)
    requires InvitesWellFormed(invites, authors)
    requires ImagesWellFormed(images, authors)
    requires a.id == nextAuthorId && !NameTaken(authors, a.name) && k < |invites|
    ensures AuthorsWellFormed(authors + [a], nextAuthorId + 1)
    ensures PostsWellFormed(posts, nextPostId, authors + [a], rooms)
    ensures RepliesWellFormed(replies, nextReplyId, authors + [a], posts)
    ensures InvitesWellFormed(invites[k := invites[k].(usedBy := Some(a.id))], authors + [a])
    ensures ImagesWellFormed(images, authors + [a])
  {
    var all := authors + [a];
    AuthorsGrow(authors, a);
    forall i, j | 0 <= i < j < |all| ensures all[i].id != all[j].id && all[i].name != all[j].name {
      if j == |authors| {
        assert all[i] == authors[i];
      }
    }
    var used := invites[k := invites[k].(usedBy := Some(a.id))];
    forall i | 0 <= i < |used| && used[i].usedBy.Some? ensures HasAuthor(all, used[i].usedBy.value) {
      if i != k {
        assert used[i] == invites[i];
      }
    }
  }

  /** Inserting a post with a fresh id, by an author, into an existing room keeps every table well formed. */
  lemma PostAddedKeepsWellFormed(posts: seq<Post>, nextPostId: int, authors: seq<Author>, rooms: seq<Room>,
                                 replies: seq<Reply>, nextReplyId: int, p: Post)
    requires PostsWellFormed(posts, nextPostId, authors, rooms)
    requires RepliesWellFormed(replies, nextReplyId, authors, posts)
    requires p.id == nextPostId && HasAuthor(authors, p.author) && HasRoom(rooms, p.room)
    ensures PostsWellFormed(posts + [p], nextPostId + 1, authors, rooms)
    ensures RepliesWellFormed(replies, nextReplyId, authors, posts + [p])
  {
    var all := posts + [p];
    PostsGrow(posts, p);
    forall i, j | 0 <= i < j < |all| ensures all[i].id != all[j].id {
      if j == |posts| {
        assert all[i] == posts[i];
      }
    }
  }

  /** Inserting a reply with a fresh id, by an author, to an existing post keeps the replies table well formed. */
  lemma ReplyAddedKeepsWellFormed(replies: seq<Reply>, nextReplyId: int, authors: seq<Author>, posts: seq<Post>, r: Reply)
    requires RepliesWellFormed(replies, nextReplyId, authors, posts)
    requires r.id == nextReplyId && HasAuthor(authors, r.author) && HasPost(posts, r.post)
    ensures RepliesWellFormed(replies + [r], nextReplyId + 1, authors, posts)
  {
    var all := replies + [r];
    forall i, j | 0 <= i < j < |all| ensures all[i].id != all[j].id {
      if j == |replies| {
        assert all[i] == replies[i];
      }
    }
  }

  /** The database. Handlers assign its fields inside one transaction each. */
  class Database {
    var authors: seq<Author>
    var nextAuthorId: int
    var rooms: seq<Room>
    var posts: seq<Post>
    var nextPostId: int
    var replies: seq<Reply>
    var nextReplyId: int
    var invites: seq<Invite>
    var inviteLimits: map<int, int>
    var images: seq<Image>

    ghost predicate Valid()
      reads this
    {
      && AuthorsWellFormed(authors, nextAuthorId)
      && RoomsWellFormed(rooms)
      && PostsWellFormed(posts, nextPostId, authors, rooms)
      && RepliesWellFormed(replies, nextReplyId, authors, posts)
      && InvitesWellFormed(invites, authors)
      && ImagesWellFormed(images, authors)
    }

    /** An empty forum with the given rooms (rooms are created outside the server). */
    constructor (rooms: seq<Room>)
      requires RoomsWellFormed(rooms)
      ensures Valid()
      ensures this.rooms == rooms
      ensures authors == [] && posts == [] && replies == [] && invites == [] && images == []
      ensures inviteLimits == map[]
    {
      this.authors := [];
      this.nextAuthorId := 1;
      this.rooms := rooms;
      this.posts := [];
      this.nextPostId := 1;
      this.replies := [];
      this.nextReplyId := 1;
      this.invites := [];
      this.inviteLimits := map[];
      this.images := [];
    }
  }
}
