/**
  `GET /image/upload`: with a live session, a content type and a numeric file size of at most
  5 MiB, and while the author has fewer than 100 images, presign an upload URL and record the
  image row. The presigned URL comes from object storage and is a parameter.
 */
module Images {
  import opened Wrappers
  import opened Query
  import opened Sessions
  import opened Tables

  /** `5 * 1024 * 1024` bytes. */
  const MAX_FILE_SIZE: int := 5 * 1024 * 1024
  /** Images an author may have before uploads are refused. */
  const MAX_IMAGES_PER_AUTHOR: int := 100

  /** Responses of the upload handler. */
  datatype UploadOutcome =
    | UploadIgnored              // returns without a response
    | LimitReached               // 403 "image upload limit reached"
    | InvalidContentType         // `generatePresignedUrl` threw IllegalArgumentException
    | UploadAborted(fault: Fault) // the insert transaction threw and rolled back
    | Uploaded(url: string)      // the presigned URL, with one image row recorded

  /** The content-type check at the top of `generatePresignedUrl`. */
  predicate AllowedContentType(contentType: string)
  {
    contentType in ["image/jpeg", "image/png", "image/gif"]
  }

  lemma OnlyImageTypesAllowed(contentType: string)
    ensures AllowedContentType(contentType)
      <==> contentType == "image/jpeg" || contentType == "image/png" || contentType == "image/gif"
  {
  }

  /** No author has more than the allowed number of images. */
  ghost predicate WithinImageLimit(images: seq<Image>)
  {
    forall a :: ImageCount(images, a) <= MAX_IMAGES_PER_AUTHOR
  }

  /** A recorded image raises its author's count by one and no other author's. */
  lemma {:induction false} ImageCountAfterInsert(images: seq<Image>, img: Image, a: int)
    ensures ImageCount(images + [img], a) == ImageCount(images, a) + (if img.author == a then 1 else 0)
  {
    CountAppend(images, img, ImageByAuthor(a));
  }

  /** Inserting for an author below the limit keeps every author within it. */
  lemma InsertKeepsWithinLimit(images: seq<Image>, img: Image)
    requires WithinImageLimit(images)
    requires ImageCount(images, img.author) < MAX_IMAGES_PER_AUTHOR
    ensures WithinImageLimit(images + [img])
  {
    forall a ensures ImageCount(images + [img], a) <= MAX_IMAGES_PER_AUTHOR {
      ImageCountAfterInsert(images, img, a);
    }
  }

  /**
    The upload handler. `fileSize` is `queryParameters["fileSize"]?.toLongOrNull()`. The count
    check and the insert are two transactions; calls are taken to be sequential.
   */
  method Upload(db: Database, session: Option<AuthSession>, contentType: Option<string>, fileSize: Option<int>,
                presignedUrl: string, now: int)
    returns (outcome: UploadOutcome)
    requires db.Valid()
    modifies db
    ensures db.Valid()
    ensures !Admits(session, now) || contentType.None? || fileSize.None? || fileSize.value > MAX_FILE_SIZE
            ==> outcome == UploadIgnored
    ensures Admits(session, now) && contentType.Some? && fileSize.Some? && fileSize.value <= MAX_FILE_SIZE ==>
      var uid := session.value.userId;
      outcome == (if ImageCount(old(db.images), uid) >= MAX_IMAGES_PER_AUTHOR then LimitReached
                  else if !AllowedContentType(contentType.value) then InvalidContentType
                  else if !HasAuthor(old(db.authors), uid) then UploadAborted(NoSuchElement)
                  else Uploaded(presignedUrl))
    ensures outcome.Uploaded? ==>
      && db.images == old(db.images) + [Image(presignedUrl, fileSize.value, now, session.value.userId)]
      && ImageCount(db.images, session.value.userId) == ImageCount(old(db.images), session.value.userId) + 1
      && db.authors == old(db.authors) && db.nextAuthorId == old(db.nextAuthorId)
      && db.rooms == old(db.rooms) && db.posts == old(db.posts) && db.nextPostId == old(db.nextPostId)
      && db.replies == old(db.replies) && db.nextReplyId == old(db.nextReplyId)
      && db.invites == old(db.invites) && db.inviteLimits == old(db.inviteLimits)
    ensures !outcome.Uploaded? ==> unchanged(db)
    ensures WithinImageLimit(old(db.images)) ==> WithinImageLimit(db.images)
  {
    if session.None? || session.value.expires < now {
      return UploadIgnored;
    }
    if contentType.None? || fileSize.None? {
      return UploadIgnored;
    }
    if fileSize.value > MAX_FILE_SIZE {
      return UploadIgnored;
    }
    var uid := session.value.userId;
    // transaction { count }
    var imageCount := ImageCount(db.images, uid);
    if imageCount >= MAX_IMAGES_PER_AUTHOR {
      return LimitReached;
    }
    if !AllowedContentType(contentType.value) {
      return InvalidContentType;
    }
    // transaction { insert }
    var author := AuthorById(db.authors, uid);
    if author.None? {
      return UploadAborted(NoSuchElement);
    }
    var img := Image(presignedUrl, fileSize.value, now, uid);
    ImageCountAfterInsert(db.images, img, uid);
    if WithinImageLimit(db.images) {
      InsertKeepsWithinLimit(db.images, img);
    }
    db.images := db.images + [img];
    return Uploaded(presignedUrl);
  }
}
