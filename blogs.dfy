/** The blog service: entries listed newest first, created with the current time, edited in
    place and deleted. */
module Blogs {
  import opened Wrappers
  import opened Schema
  import opened Listing
  import opened Database

  datatype BlogRequest = BlogRequest(title: string, author: string, content: string)

  /** `ORDER BY post_datetime DESC`. */
  function PostedKey(b: Blog): seq<int>
  {
    [b.postDatetime]
  }

  /** `get_blogs`: every entry once, newest first. */
  method GetBlogs(db: Store) returns (rows: seq<Blog>)
    ensures IsListing(rows, db.blogs, PostedKey, true)
    ensures |rows| == |db.blogs|
    ensures forall i, j :: 0 <= i < j < |rows| ==> rows[i].postDatetime >= rows[j].postDatetime
  {
    rows := Select(db.blogs, PostedKey, true);
    NewestBlogsFirst(rows, db.blogs);
  }

  lemma NewestBlogsFirst(rows: seq<Blog>, table: map<Id, Blog>)
    requires IsListing(rows, table, PostedKey, true)
    ensures forall i, j :: 0 <= i < j < |rows| ==> rows[i].postDatetime >= rows[j].postDatetime
  {
    forall i, j | 0 <= i < j < |rows| ensures rows[i].postDatetime >= rows[j].postDatetime {
      assert Before(PostedKey, true, rows[i], rows[j]);
      SeqLeSingleton(rows[j].postDatetime, rows[i].postDatetime);
    }
  }

  /** `get_blog_by_id`: the entry, or `NoResultFound`. */
  function GetBlogById(blogs: map<Id, Blog>, id: Id): (r: Outcome<Blog>)
    ensures r.Raises? <==> id !in blogs
    ensures r.Raises? ==> r.exc == NoResultFound
    ensures r.Returns? ==> r.value == blogs[id]
  {
    One(blogs, id)
  }

  /** `post_blog`: exactly one entry is added, stamped with `now`. */
  method PostBlog(db: Store, req: BlogRequest, now: Time) returns (r: string)
    requires db.Valid()
    modifies db
    ensures db.Valid()
    ensures r == "Posted Blog."
    ensures exists id :: (id !in old(db.blogs)
      && db.Tables() == old(db.Tables()).(blogs := old(db.blogs)[id := Blog(id, req.title, req.author, req.content, now)]))
  {
    var id := NextId(db.blogs);
    db.blogs := db.blogs[id := Blog(id, req.title, req.author, req.content, now)];
    return "Posted Blog.";
  }

  /** The edit `update_blog` applies: title, content and author replaced, date kept. */
  function Edited(b: Blog, req: BlogRequest): (e: Blog)
    ensures e.id == b.id && e.postDatetime == b.postDatetime
    ensures e.title == req.title && e.content == req.content && e.author == req.author
  {
    b.(title := req.title, content := req.content, author := req.author)
  }

  /** Editing twice with the same request is editing once, and the last edit wins. */
  lemma EditedLastWins(b: Blog, first: BlogRequest, second: BlogRequest)
    ensures Edited(Edited(b, first), second) == Edited(b, second)
  {
  }

  /** `update_blog`: nothing, and no change, for an unknown id; otherwise the entry is
      edited in place. */
  method UpdateBlog(db: Store, id: Id, req: BlogRequest) returns (r: Option<string>)
    requires db.Valid()
    modifies db
    ensures db.Valid()
    ensures r.None? <==> id !in old(db.blogs)
    ensures r.None? ==> db.Tables() == old(db.Tables())
    ensures r.Some? ==> r.value == "Updated Blog."
    ensures r.Some? ==> db.Tables() == old(db.Tables()).(blogs := old(db.blogs)[id := Edited(old(db.blogs)[id], req)])
  {
    var entity := OneOrNone(db.blogs, id);
    if entity.None? {
      return None;
    }
    db.blogs := db.blogs[id := Edited(entity.value, req)];
    return Some("Updated Blog.");
  }

  /** `delete_blog`: the lookup uses `scalar_one`, so an unknown id raises `NoResultFound`
      (the `None` answer is never given); an existing entry is removed and returned. */
  method DeleteBlog(db: Store, id: Id) returns (r: Outcome<Option<Blog>>)
    requires db.Valid()
    modifies db
    ensures db.Valid()
    ensures r.Raises? <==> id !in old(db.blogs)
    ensures r.Raises? ==> r.exc == NoResultFound && db.Tables() == old(db.Tables())
    ensures r.Returns? ==> r.value == Some(old(db.blogs)[id])
    ensures r.Returns? ==> db.Tables() == old(db.Tables()).(blogs := old(db.blogs) - {id})
  {
    var entity := One(db.blogs, id);
    if entity.Raises? {
      return Raises(entity.exc);
    }
    db.blogs := db.blogs - {id};
    return Returns(Some(entity.value));
  }
}
