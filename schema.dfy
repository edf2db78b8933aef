/** The relational schema: one datatype per table row, the whole database as a value, and
    the constraints the table declarations impose on it (primary keys, foreign keys with
    `ON DELETE CASCADE`, unique columns and the one-row banner check). */
module Schema {
  import opened Wrappers

  /** Auto-increment primary keys. */
  type Id = int

  /** A naive local timestamp, in whole seconds. */
  type Time = int

  datatype User = User(
    id: Id,
    username: string,
    description: string,
    hashedPass: string,
    isAdmin: bool,
    profilePicture: Option<string>,
    lastCommentAt: Option<Time>)

  /** A catalogue entry. `author` is a free-text credit used when no user owns the entry;
      `authorId` is the owning user. */
  datatype Niko = Niko(
    id: Id,
    name: string,
    description: string,
    doc: string,
    author: string,
    fullDesc: string,
    isBlacklisted: bool,
    authorId: Option<Id>)

  datatype Ability = Ability(id: Id, name: string, nikoId: Id)

  datatype Blog = Blog(id: Id, title: string, author: string, content: string, postDatetime: Time)

  /** Submission bookkeeping for an external (bot) user, keyed by that user's own id string. */
  datatype SubmitUser = SubmitUser(
    id: Id,
    userId: string,
    lastSubmitOn: int,
    isBanned: bool,
    banReason: string)

  datatype Submission = Submission(
    id: Id,
    userId: Id,
    submitDate: Time,
    name: string,
    description: string,
    fullDesc: string,
    image: string,
    isBlacklisted: bool)

  datatype Post = Post(
    id: Id,
    userId: Id,
    postDatetime: Time,
    title: string,
    content: string,
    image: string)

  datatype Comment = Comment(id: Id, authorId: Id, postId: Id, content: string, postDate: Time)

  datatype Banner = Banner(
    id: int,
    title: string,
    content: string,
    isDismissable: bool,
    bannerIdentifier: string)

  /** The whole store: every table keyed by its primary key, the "Niko of the Day"
      history keyed by niko id (so a niko appears in it at most once) and mapping it to the
      time it was chosen, the banner row if there is one, and the names of the image files
      in the image directory. */
  datatype Db = Db(
    users: map<Id, User>,
    nikos: map<Id, Niko>,
    abilities: map<Id, Ability>,
    notd: map<Id, Time>,
    comments: map<Id, Comment>,
    posts: map<Id, Post>,
    blogs: map<Id, Blog>,
    submissions: map<Id, Submission>,
    submitUsers: map<Id, SubmitUser>,
    banner: Option<Banner>,
    files: set<string>)

  // ---------------------------------------------------------------------------
  // Constraints
  // ---------------------------------------------------------------------------

  /** Every row is stored under its own primary key. */
  ghost predicate PrimaryKeys(db: Db)
  {
    && (forall k :: k in db.users ==> db.users[k].id == k)
    && (forall k :: k in db.nikos ==> db.nikos[k].id == k)
    && (forall k :: k in db.abilities ==> db.abilities[k].id == k)
    && (forall k :: k in db.comments ==> db.comments[k].id == k)
    && (forall k :: k in db.posts ==> db.posts[k].id == k)
    && (forall k :: k in db.blogs ==> db.blogs[k].id == k)
    && (forall k :: k in db.submissions ==> db.submissions[k].id == k)
    && (forall k :: k in db.submitUsers ==> db.submitUsers[k].id == k)
  }

  /** Auto-increment niko ids start at 1. */
  ghost predicate NikoIds(nikos: map<Id, Niko>)
  {
    forall k :: k in nikos ==> k >= 1
  }

  ghost predicate NikoOwnersExist(users: map<Id, User>, nikos: map<Id, Niko>)
  {
    forall k :: k in nikos && nikos[k].authorId.Some? ==> nikos[k].authorId.value in users
  }

  ghost predicate AbilityNikosExist(nikos: map<Id, Niko>, abilities: map<Id, Ability>)
  {
    forall k :: k in abilities ==> abilities[k].nikoId in nikos
  }

  ghost predicate HistoryNikosExist(nikos: map<Id, Niko>, notd: map<Id, Time>)
  {
    forall k :: k in notd ==> k in nikos
  }

  ghost predicate SubmittersExist(users: map<Id, User>, submissions: map<Id, Submission>)
  {
    forall k :: k in submissions ==> submissions[k].userId in users
  }

  ghost predicate PostersExist(users: map<Id, User>, posts: map<Id, Post>)
  {
    forall k :: k in posts ==> posts[k].userId in users
  }

  ghost predicate CommentTargetsExist(users: map<Id, User>, posts: map<Id, Post>, comments: map<Id, Comment>)
  {
    forall k :: k in comments ==> comments[k].authorId in users && comments[k].postId in posts
  }

  /** Every foreign key points at an existing row. */
  ghost predicate ForeignKeys(db: Db)
  {
    && NikoOwnersExist(db.users, db.nikos)
    && AbilityNikosExist(db.nikos, db.abilities)
    && HistoryNikosExist(db.nikos, db.notd)
    && SubmittersExist(db.users, db.submissions)
    && PostersExist(db.users, db.posts)
    && CommentTargetsExist(db.users, db.posts, db.comments)
  }

  /** `users.username` is declared unique. */
  ghost predicate UniqueUsernames(users: map<Id, User>)
  {
    forall a, b :: a in users && b in users && users[a].username == users[b].username ==> a == b
  }

  /** `submit_users.user_id` is declared unique. */
  ghost predicate UniqueSubmitUsers(submitUsers: map<Id, SubmitUser>)
  {
    forall a, b :: a in submitUsers && b in submitUsers && submitUsers[a].userId == submitUsers[b].userId ==> a == b
  }

  /** The `one_row_only` check: the banner row, if any, has id 1. */
  ghost predicate SingleBanner(banner: Option<Banner>)
  {
    banner.Some? ==> banner.value.id == 1
  }

  ghost predicate Consistent(db: Db)
  {
    && PrimaryKeys(db)
    && NikoIds(db.nikos)
    && ForeignKeys(db)
    && UniqueUsernames(db.users)
    && UniqueSubmitUsers(db.submitUsers)
    && SingleBanner(db.banner)
  }

  /** The empty database satisfies every constraint. */
  lemma EmptyConsistent(files: set<string>)
    ensures Consistent(Db(map[], map[], map[], map[], map[], map[], map[], map[], map[], None, files))
  {
  }

  // ---------------------------------------------------------------------------
  // Fresh auto-increment keys
  // ---------------------------------------------------------------------------

  /** A finite table always leaves a positive key free (auto-increment never runs out). */
  lemma {:induction false} FreshKey(keys: set<Id>) returns (id: Id)
    ensures id >= 1 && forall k :: k in keys ==> k < id
    decreases |keys|
  {
    if keys == {} {
      id := 1;
    } else {
      assert (forall j :: j !in keys) ==> keys == {};
      var k :| k in keys;
      var id' := FreshKey(keys - {k});
      id := if k + 1 > id' then k + 1 else id';
      forall j | j in keys ensures j < id {
        if j != k {
          assert j in keys - {k};
        }
      }
    }
  }

  // ---------------------------------------------------------------------------
  // Derived values
  // ---------------------------------------------------------------------------

  /** `Niko.author_name`: the free-text credit for an unowned niko, otherwise the owner's
      username, or a placeholder when the owner row cannot be loaded. */
  function AuthorName(users: map<Id, User>, n: Niko): string
  {
    if n.authorId.None? then n.author
    else if n.authorId.value !in users then "Could not find author_name.."
    else users[n.authorId.value].username
  }

  /** In a consistent store the placeholder branch is never taken: an owned niko shows its
      owner's username and an unowned one its free-text credit. */
  lemma AuthorNameConsistent(db: Db, k: Id)
    requires Consistent(db) && k in db.nikos
    ensures db.nikos[k].authorId.None? ==> AuthorName(db.users, db.nikos[k]) == db.nikos[k].author
    ensures db.nikos[k].authorId.Some? ==>
      db.nikos[k].authorId.value in db.users &&
      AuthorName(db.users, db.nikos[k]) == db.users[db.nikos[k].authorId.value].username
  {
    assert NikoOwnersExist(db.users, db.nikos);
  }

  /** The ids of the abilities attached to niko `k` (the `Niko.abilities` relationship). */
  ghost function AbilitiesOf(abilities: map<Id, Ability>, k: Id): set<Id>
  {
    set a | a in abilities && abilities[a].nikoId == k
  }

  /** A niko stored under a key that was free has no abilities yet: nothing could refer to it. */
  lemma FreshNikoHasNoAbilities(db: Db, k: Id)
    requires Consistent(db) && k !in db.nikos
    ensures AbilitiesOf(db.abilities, k) == {}
  {
    assert AbilityNikosExist(db.nikos, db.abilities);
    assert forall a :: a in db.abilities ==> db.abilities[a].nikoId != k;
  }

  // ---------------------------------------------------------------------------
  // Cascading deletes
  // ---------------------------------------------------------------------------

  /** Deleting niko `k`: its abilities and its history entry go with it. */
  function DeleteNikoCascade(db: Db, k: Id): Db
  {
    db.(nikos := db.nikos - {k},
        abilities := map a | a in db.abilities && db.abilities[a].nikoId != k :: db.abilities[a],
        notd := db.notd - {k})
  }

  lemma DeleteNikoCascadeSound(db: Db, k: Id)
    requires Consistent(db)
    ensures Consistent(DeleteNikoCascade(db, k))
    ensures var d := DeleteNikoCascade(db, k);
      && k !in d.nikos && k !in d.notd
      && (forall a :: a in db.abilities ==> (a in d.abilities <==> db.abilities[a].nikoId != k))
      && (forall j :: j in db.nikos && j != k ==> j in d.nikos && d.nikos[j] == db.nikos[j])
  {
    var d := DeleteNikoCascade(db, k);
    assert AbilityNikosExist(d.nikos, d.abilities);
    assert HistoryNikosExist(d.nikos, d.notd);
  }

  /** Deleting user `u`: the nikos, submissions and posts it owns, the comments it wrote, and
      transitively the abilities and history entries of those nikos and the comments on
      those posts, all go with it. */
  function DeleteUserCascade(db: Db, u: Id): Db
  {
    var nikos := map k | k in db.nikos && db.nikos[k].authorId != Some(u) :: db.nikos[k];
    var posts := map k | k in db.posts && db.posts[k].userId != u :: db.posts[k];
    db.(users := db.users - {u},
        nikos := nikos,
        abilities := map a | a in db.abilities && db.abilities[a].nikoId in nikos :: db.abilities[a],
        notd := map k | k in db.notd && k in nikos :: db.notd[k],
        submissions := map s | s in db.submissions && db.submissions[s].userId != u :: db.submissions[s],
        posts := posts,
        comments := map c | c in db.comments && db.comments[c].authorId != u && db.comments[c].postId in posts :: db.comments[c])
  }

  lemma DeleteUserCascadeSound(db: Db, u: Id)
    requires Consistent(db)
    ensures Consistent(DeleteUserCascade(db, u))
    ensures var d := DeleteUserCascade(db, u);
      && u !in d.users
      && (forall k :: k in db.nikos ==> (k in d.nikos <==> db.nikos[k].authorId != Some(u)))
      && (forall k :: k in db.posts ==> (k in d.posts <==> db.posts[k].userId != u))
      && (forall k :: k in db.submissions ==> (k in d.submissions <==> db.submissions[k].userId != u))
      && (forall k :: k in d.comments ==> d.comments[k].authorId != u)
      && (forall j :: j in db.users && j != u ==> j in d.users && d.users[j] == db.users[j])
  {
    var d := DeleteUserCascade(db, u);
    assert NikoOwnersExist(d.users, d.nikos) by {
      forall k | k in d.nikos && d.nikos[k].authorId.Some?
        ensures d.nikos[k].authorId.value in d.users
      {
        assert db.nikos[k].authorId.value in db.users;
      }
    }
    assert UniqueUsernames(d.users);
  }

  /** What survives the deletion of user `u` is untouched: the kept rows of every table
      hold their old values, and abilities, history entries and comments survive exactly
      when what they refer to does. */
  lemma DeleteUserCascadeKeeps(db: Db, u: Id)
    ensures var d := DeleteUserCascade(db, u);
      && (forall k :: k in d.nikos ==> d.nikos[k] == db.nikos[k])
      && (forall k :: k in d.posts ==> d.posts[k] == db.posts[k])
      && (forall k :: k in d.submissions ==> d.submissions[k] == db.submissions[k])
      && (forall a :: a in db.abilities ==> (a in d.abilities <==> db.abilities[a].nikoId in d.nikos))
      && (forall a :: a in d.abilities ==> d.abilities[a] == db.abilities[a])
      && (forall k :: k in db.notd ==> (k in d.notd <==> k in d.nikos))
      && (forall k :: k in d.notd ==> d.notd[k] == db.notd[k])
      && (forall c :: c in db.comments ==>
            (c in d.comments <==> db.comments[c].authorId != u && db.comments[c].postId in d.posts))
      && (forall c :: c in d.comments ==> d.comments[c] == db.comments[c])
  {
  }

  /** Deleting post `p`: the comments on it go with it. */
  function DeletePostCascade(db: Db, p: Id): Db
  {
    db.(posts := db.posts - {p},
        comments := map c | c in db.comments && db.comments[c].postId != p :: db.comments[c])
  }

  lemma DeletePostCascadeSound(db: Db, p: Id)
    requires Consistent(db)
    ensures Consistent(DeletePostCascade(db, p))
    ensures var d := DeletePostCascade(db, p);
      && p !in d.posts
      && (forall k :: k in db.posts && k != p ==> k in d.posts && d.posts[k] == db.posts[k])
      && (forall c :: c in db.comments ==> (c in d.comments <==> db.comments[c].postId != p))
  {
  }
}
