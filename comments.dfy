/** The comment service: deleting a comment (its author or an admin) and posting one, behind
    a per-user cool-down that admins skip and a 300-character limit. */
module Comments {
  import opened Wrappers
  import opened Schema
  import opened Text
  import opened Listing
  import opened Database

  /** The longest comment accepted, in characters. */
  const MaxCommentLength: int := 300

  datatype CommentRequest = CommentRequest(postId: Id, content: string)

  /** A wait of `remaining` seconds split into whole minutes and leftover seconds. */
  function WaitParts(remaining: int): (p: (int, int))
    requires remaining > 0
    ensures p.0 >= 0 && 0 <= p.1 < 60
    ensures p.0 * 60 + p.1 == remaining
  {
    (remaining / 60, remaining % 60)
  }

  function CooldownMessage(remaining: int): string
    requires remaining > 0
  {
    var (m, s) := WaitParts(remaining);
    "You have " + Decimal(m) + " minutes and " + Decimal(s) + " seconds left before you can comment."
  }

  /** The cool-down rejection, if any: a non-admin whose last comment is less than `limit`
      minutes old is told how long is left; admins and users who never commented pass. */
  function Cooldown(u: User, limit: int, now: Time): (r: Option<string>)
    ensures r.Some? <==> !u.isAdmin && u.lastCommentAt.Some? && now - u.lastCommentAt.value < limit * 60
    ensures r.Some? ==> r.value == CooldownMessage(u.lastCommentAt.value + limit * 60 - now)
  {
    if u.lastCommentAt.Some? && !u.isAdmin then
      var elapsed := now - u.lastCommentAt.value;
      if elapsed < limit * 60 then Some(CooldownMessage(limit * 60 - elapsed)) else None
    else None
  }

  /** The reported wait adds up to the exact time until the cool-down ends. */
  lemma {:induction false} CooldownReportsRemaining(u: User, limit: int, now: Time)
    requires Cooldown(u, limit, now).Some?
    ensures var rem := u.lastCommentAt.value + limit * 60 - now;
      rem > 0 && Cooldown(u, limit, now).value
        == "You have " + Decimal(rem / 60) + " minutes and " + Decimal(rem % 60) + " seconds left before you can comment."
      && (rem / 60) * 60 + rem % 60 == rem
  {
    var rem := u.lastCommentAt.value + limit * 60 - now;
    assert rem > 0;
    var p := WaitParts(rem);
    assert p == (rem / 60, rem % 60);
  }

  /** A non-admin who has just commented at `t` is held back until `t + limit` minutes,
      and no longer. */
  lemma CooldownWindow(u: User, limit: int, t: Time, later: Time)
    requires !u.isAdmin
    ensures Cooldown(u.(lastCommentAt := Some(t)), limit, later).Some? <==> later < t + limit * 60
  {
  }

  /** Inserting a comment whose author and post exist, together with the author's
      last-comment bump, keeps every constraint. */
  lemma CommentKeepsConsistent(d: Db, id: Id, c: Comment)
    requires Consistent(d) && id !in d.comments && c.id == id
    requires c.authorId in d.users && c.postId in d.posts
    ensures Consistent(d.(users := d.users[c.authorId := d.users[c.authorId].(lastCommentAt := Some(c.postDate))],
                          comments := d.comments[id := c]))
  {
    var users' := d.users[c.authorId := d.users[c.authorId].(lastCommentAt := Some(c.postDate))];
    assert users'.Keys == d.users.Keys;
    forall a, b | a in users' && b in users' && users'[a].username == users'[b].username
      ensures a == b
    {
      assert d.users[a].username == users'[a].username && d.users[b].username == users'[b].username;
    }
  }

  /** `create_comment_on_post`: a missing user or post is reported first, then the
      cool-down, then the length; only a comment that passes all three is inserted, together
      with the bump of the user's last-comment time. A comment refused for its length is
      rolled back, bump included. */
  method CreateComment(db: Store, limit: int, userId: Id, req: CommentRequest, now: Time) returns (r: Msg)
    requires db.Valid()
    modifies db
    ensures db.Valid()
    ensures userId !in old(db.users) || req.postId !in old(db.posts) ==> r == Msg("User or Comment doesn't exist.", true)
    ensures userId in old(db.users) && req.postId in old(db.posts) && Cooldown(old(db.users)[userId], limit, now).Some?
            ==> r == Msg(Cooldown(old(db.users)[userId], limit, now).value, true)
    ensures (userId in old(db.users) && req.postId in old(db.posts) && Cooldown(old(db.users)[userId], limit, now).None?
             && |req.content| > MaxCommentLength) ==> r == Msg("Comment too long.", true)
    ensures !r.err <==> (userId in old(db.users) && req.postId in old(db.posts)
            && Cooldown(old(db.users)[userId], limit, now).None? && |req.content| <= MaxCommentLength)
    ensures r.err ==> db.Tables() == old(db.Tables())
    ensures !r.err ==> r.text == "Inserted comment."
    ensures !r.err ==> exists id :: (id !in old(db.comments) && db.Tables() == old(db.Tables()).(
      users := old(db.users)[userId := old(db.users)[userId].(lastCommentAt := Some(now))],
      comments := old(db.comments)[id := Comment(id, userId, req.postId, req.content, now)]))
  {
    var post := OneOrNone(db.posts, req.postId);
    var user := OneOrNone(db.users, userId);
    if user.None? || post.None? {
      return Msg("User or Comment doesn't exist.", true);
    }
    if user.value.lastCommentAt.Some? && !user.value.isAdmin {
      var elapsed := now - user.value.lastCommentAt.value;
      if elapsed < limit * 60 {
        return Msg(CooldownMessage(limit * 60 - elapsed), true);
      }
    }
    // the bump lives in the session until the commit below
    var bumped := user.value.(lastCommentAt := Some(now));
    if |req.content| > MaxCommentLength {
      return Msg("Comment too long.", true);
    }
    var id := NextId(db.comments);
    var before := db.Tables();
    CommentKeepsConsistent(before, id, Comment(id, userId, req.postId, req.content, now));
    db.Commit(before.(users := before.users[userId := bumped],
                      comments := before.comments[id := Comment(id, userId, req.postId, req.content, now)]));
    return Msg("Inserted comment.", false);
  }

  /** Only an admin or the comment's author may delete it. */
  predicate MayDeleteComment(actor: User, c: Comment)
  {
    actor.isAdmin || c.authorId == actor.id
  }

  /** What `delete_comment_on_post` answers with: a status dict, or True once deleted. */
  datatype DeleteReply = Status(code: int, message: string) | Deleted

  /** `delete_comment_on_post`: 404 for an unknown comment, 401 for an actor who is neither
      an admin nor the author, otherwise the comment is removed. */
  method DeleteComment(db: Store, actor: User, commentId: Id) returns (r: DeleteReply)
    requires db.Valid()
    modifies db
    ensures db.Valid()
    ensures commentId !in old(db.comments) ==> r == Status(404, "Comment not found")
    ensures commentId in old(db.comments) && !MayDeleteComment(actor, old(db.comments)[commentId])
            ==> r == Status(401, "Forbidden")
    ensures r.Deleted? <==> commentId in old(db.comments) && MayDeleteComment(actor, old(db.comments)[commentId])
    ensures r.Deleted? ==> db.Tables() == old(db.Tables()).(comments := old(db.comments) - {commentId})
    ensures r.Status? ==> db.Tables() == old(db.Tables())
  {
    var c := OneOrNone(db.comments, commentId);
    if c.None? {
      return Status(404, "Comment not found");
    }
    if !(actor.isAdmin || c.value.authorId == actor.id) {
      return Status(401, "Forbidden");
    }
    db.comments := db.comments - {commentId};
    return Deleted;
  }
}
