/** The post service: the paged listing, lookups, the picture of a post and creating a post
    with its uploaded picture. */
module Posts {
  import opened Wrappers
  import opened Schema
  import opened Listing
  import opened Database
  import opened Images

  datatype PostRequest = PostRequest(title: string, content: string)

  /** No `ORDER BY`: every order of the posts is allowed. */
  function Unordered(p: Post): seq<int>
  {
    []
  }

  /** `get_posts_page`: nothing for a page before the first; otherwise at most `count` posts,
      in no particular order, after skipping `count * (page - 1)`. */
  method GetPostsPage(db: Store, page: int, count: int) returns (r: Outcome<Option<seq<Post>>>)
    ensures page < 1 ==> r == Returns(None)
    ensures page >= 1 && count < 0 ==> r == Raises(InvalidLimit)
    ensures page >= 1 && count >= 0 ==> r.Returns? && r.value.Some? && |r.value.value| <= count
    ensures page >= 1 && count >= 0 ==> exists rows :: (IsListing(rows, db.posts, Unordered, false)
      && r.value.value == Window(rows, count * (page - 1), count))
  {
    if page < 1 {
      return Returns(None);
    }
    var offset := count * (page - 1);
    assert count >= 0 ==> offset >= 0;
    var rows := SelectPage(db.posts, Unordered, false, offset, count);
    match rows
    case Returns(w) => r := Returns(Some(w));
    case Raises(e) => r := Raises(e);
  }

  /** `get_post_id`: the post, or nothing. */
  function GetPostById(posts: map<Id, Post>, id: Id): (r: Option<Post>)
    ensures r.None? <==> id !in posts
    ensures r.Some? ==> r.value == posts[id]
  {
    OneOrNone(posts, id)
  }

  /** `get_post_image`: nothing for an unknown post; otherwise the post's picture file, or
      the default picture when the post has none or the file is gone. */
  function GetPostImage(posts: map<Id, Post>, files: set<string>, id: Id): (r: Option<ImagePath>)
    ensures r.None? <==> id !in posts
    ensures r.Some? && r.value.InImageDir? ==> r.value.name == posts[id].image && r.value.name in files
    ensures r.Some? && r.value.DefaultImage? ==> posts[id].image == "" || posts[id].image !in files
  {
    match OneOrNone(posts, id)
    case None => None
    case Some(p) => Some(StoredImage(p.image, files))
  }

  /** The answer `insert_post` gives for each upload check. */
  function GateMessage(g: Gate): (m: Msg)
    ensures m.err <==> g != Accepted
  {
    match g
    case NotAnImage => Msg("Not a valid file!", true)
    case BadSize => Msg("File too large!", true)
    case Undecodable => Msg("Failed to open image!", true)
    case Accepted => Msg("Inserted Post.", false)
  }

  /** Each refusal has its own message. */
  lemma GateMessagesDistinct(g: Gate, h: Gate)
    requires GateMessage(g) == GateMessage(h)
    ensures g == h
  {
  }

  /** `insert_post`: the upload is checked (type, then size, then decoding) before anything
      is written; then the picture is saved as `{identifier}.png` and a post by `userId`
      dated `now` is inserted with that picture. The author is not checked: for an unknown
      user the foreign key refuses the row at commit, after the file has been written.
      `identifier` stands for the freshly generated uuid. */
  method InsertPost(db: Store, userId: Id, req: PostRequest, u: Upload, identifier: string, now: Time)
    returns (r: Outcome<Msg>)
    requires db.Valid()
    modifies db
    ensures db.Valid()
    ensures CheckUpload(u) != Accepted ==> r == Returns(GateMessage(CheckUpload(u))) && db.Tables() == old(db.Tables())
    ensures r.Raises? <==> CheckUpload(u) == Accepted && userId !in old(db.users)
    ensures r.Raises? ==> r.exc == IntegrityError
    ensures r.Raises? ==> db.Tables() == old(db.Tables()).(files := old(db.files) + {SavedImageName(identifier)})
    ensures r == Returns(Msg("Inserted Post.", false)) <==> CheckUpload(u) == Accepted && userId in old(db.users)
    ensures r == Returns(Msg("Inserted Post.", false)) ==> exists id :: (id !in old(db.posts)
      && db.Tables() == old(db.Tables()).(
           files := old(db.files) + {SavedImageName(identifier)},
           posts := old(db.posts)[id := Post(id, userId, now, req.title, req.content, SavedImageName(identifier))]))
  {
    if !IsImageType(u) {
      return Returns(Msg("Not a valid file!", true));
    }
    if !IsAcceptedSize(u) {
      return Returns(Msg("File too large!", true));
    }
    if !u.decodes {
      return Returns(Msg("Failed to open image!", true));
    }
    var name := SavedImageName(identifier);
    db.files := db.files + {name};
    if userId !in db.users {
      // the foreign key on `user_id` refuses the row at commit
      return Raises(IntegrityError);
    }
    var id := NextId(db.posts);
    db.posts := db.posts[id := Post(id, userId, now, req.title, req.content, name)];
    return Returns(Msg("Inserted Post.", false));
  }
}
