/** The live database as one mutable object. Each service call is one transaction on it:
    a call that returns early without committing leaves every field as it was. */
module Database {
  import opened Wrappers
  import opened Schema

  class Store {
    var users: map<Id, User>
    var nikos: map<Id, Niko>
    var abilities: map<Id, Ability>
    var notd: map<Id, Time>
    var comments: map<Id, Comment>
    var posts: map<Id, Post>
    var blogs: map<Id, Blog>
    var submissions: map<Id, Submission>
    var submitUsers: map<Id, SubmitUser>
    var banner: Option<Banner>
    /** Names of the files in the image directory. */
    var files: set<string>

    /** The current contents of every table, as one value. */
    function Tables(): Db
      reads this
    {
      Db(users, nikos, abilities, notd, comments, posts, blogs, submissions, submitUsers, banner, files)
    }

    ghost predicate Valid()
      reads this
    {
      Consistent(Tables())
    }

    /** A freshly migrated database: empty tables and whatever files the image directory holds. */
    constructor (initialFiles: set<string>)
      ensures Valid()
      ensures Tables() == Db(map[], map[], map[], map[], map[], map[], map[], map[], map[], None, initialFiles)
    {
      users, nikos, abilities, notd := map[], map[], map[], map[];
      comments, posts, blogs, submissions, submitUsers := map[], map[], map[], map[], map[];
      banner, files := None, initialFiles;
      EmptyConsistent(initialFiles);
    }

    /** Writes a whole new state, as a commit of several statements does. */
    method Commit(d: Db)
      modifies this
      ensures Tables() == d
    {
      users, nikos, abilities, notd := d.users, d.nikos, d.abilities, d.notd;
      comments, posts, blogs, submissions, submitUsers := d.comments, d.posts, d.blogs, d.submissions, d.submitUsers;
      banner, files := d.banner, d.files;
    }
  }

  /** The key auto-increment assigns to the next inserted row: a positive key no row uses. */
  method NextId<T>(table: map<Id, T>) returns (id: Id)
    ensures id >= 1 && id !in table
  {
    ghost var bound := FreshKey(table.Keys);
    assert bound >= 1 && bound !in table;
    id :| id >= 1 && id !in table;
  }
}
