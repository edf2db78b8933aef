/** The post deletion endpoint: the post's author or an admin may delete it. */
module PostRouter {
  import opened Wrappers
  import opened Schema
  import opened Database
  import opened Posts

  datatype Reply = Removed | Fail(code: int, detail: string)

  /** Only the post's author or an admin may delete it. */
  predicate MayDeletePost(actor: User, p: Post)
  {
    p.userId == actor.id || actor.isAdmin
  }

  /** `delete_post`: 404 for an unknown post, 403 for someone who is neither its author nor
      an admin; otherwise the post is removed together with its comments. */
  method DeletePost(db: Store, id: Id, actor: User) returns (r: Reply)
    requires db.Valid()
    modifies db
    ensures db.Valid()
    ensures id !in old(db.posts) ==> r == Fail(404, "Not found.")
    ensures id in old(db.posts) && !MayDeletePost(actor, old(db.posts)[id]) ==> r == Fail(403, "Forbidden.")
    ensures r.Removed? <==> id in old(db.posts) && MayDeletePost(actor, old(db.posts)[id])
    ensures r.Removed? ==> db.Tables() == DeletePostCascade(old(db.Tables()), id)
    ensures r.Fail? ==> db.Tables() == old(db.Tables())
  {
    var res := GetPostById(db.posts, id);
    if res.None? {
      return Fail(404, "Not found.");
    } else if res.value.userId != actor.id && !actor.isAdmin {
      return Fail(403, "Forbidden.");
    }
    var deleted := RemovePost(db, res.value.id);
    if deleted {
      return Removed;
    } else {
      return Fail(404, "Not found.");
    }
  }

  /** The post removal `delete_post` calls: it removes an existing post and the comments on
      it, and reports whether there was a post to remove. */
  method RemovePost(db: Store, id: Id) returns (deleted: bool)
    requires db.Valid()
    modifies db
    ensures db.Valid()
    ensures deleted <==> id in old(db.posts)
    ensures deleted ==> db.Tables() == DeletePostCascade(old(db.Tables()), id)
    ensures !deleted ==> db.Tables() == old(db.Tables())
  {
    if id !in db.posts {
      return false;
    }
    var before := db.Tables();
    DeletePostCascadeSound(before, id);
    db.Commit(DeletePostCascade(before, id));
    return true;
  }
}
