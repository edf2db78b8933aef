/** The user service: lookups, the username search, account creation, the partial account
    update and the upsert of the submission bookkeeping kept for external (bot) users.
    Passwords reach the store only as hashes; the hash of a new password is a parameter. */
module Users {
  import opened Wrappers
  import opened Schema
  import opened Text
  import opened Listing
  import opened Database

  datatype UserChangeRequest = UserChangeRequest(newUsername: string, newPassword: string, newDescription: string)

  datatype SubmitUserRequest = SubmitUserRequest(lastSubmitOn: int, isBanned: bool, banReason: string)

  // ---------------------------------------------------------------------------
  // Lookups
  // ---------------------------------------------------------------------------

  /** The keys of the users called `name`. */
  function Named(users: map<Id, User>, name: string): (ks: set<Id>)
    ensures forall k :: k in ks <==> k in users && users[k].username == name
  {
    set k | k in users && users[k].username == name
  }

  /** The unique constraint leaves at most one user per name. */
  lemma {:induction false} AtMostOneNamed(users: map<Id, User>, name: string)
    requires UniqueUsernames(users)
    ensures |Named(users, name)| <= 1
  {
    var ks := Named(users, name);
    if ks != {} {
      assert (forall j :: j !in ks) ==> ks == {};
      var k :| k in ks;
      assert ks == {k} by {
        forall j | j in ks ensures j == k {
          assert users[j].username == users[k].username;
        }
      }
    }
  }

  /** `get_user_by_username`: the first user called `name` (the query is cut to one row),
      or `NoResultFound`. */
  method GetUserByUsername(db: Store, name: string) returns (r: Outcome<User>)
    ensures r.Raises? <==> Named(db.users, name) == {}
    ensures r.Raises? ==> r.exc == NoResultFound
    ensures r.Returns? ==> r.value.username == name && r.value in db.users.Values
  {
    var ks := Named(db.users, name);
    if ks == {} {
      return Raises(NoResultFound);
    }
    assert (forall j :: j !in ks) ==> ks == {};
    var k :| k in ks;
    return Returns(db.users[k]);
  }

  /** `get_user_by_name`: like `GetUserByUsername` without the one-row cut, so two users of
      the same name would raise `MultipleResultsFound`; the unique constraint rules that out
      (`GetUserByNameUnique`). */
  method GetUserByName(db: Store, name: string) returns (r: Outcome<User>)
    ensures r.Raises? <==> |Named(db.users, name)| != 1
    ensures r.Raises? ==> r.exc == (if Named(db.users, name) == {} then NoResultFound else MultipleResultsFound)
    ensures r.Returns? ==> r.value.username == name && r.value in db.users.Values
  {
    var ks := Named(db.users, name);
    if ks == {} {
      return Raises(NoResultFound);
    }
    if |ks| >= 2 {
      return Raises(MultipleResultsFound);
    }
    assert (forall j :: j !in ks) ==> ks == {};
    var k :| k in ks;
    return Returns(db.users[k]);
  }

  /** On a consistent store the name lookup raises only for a name nobody has. */
  lemma GetUserByNameUnique(db: Db, name: string)
    requires Consistent(db)
    ensures |Named(db.users, name)| != 1 <==> Named(db.users, name) == {}
  {
    AtMostOneNamed(db.users, name);
  }

  /** `get_user_by_id`: the user, or `NoResultFound`. */
  function GetUserById(users: map<Id, User>, id: Id): (r: Outcome<User>)
    ensures r.Raises? <==> id !in users
    ensures r.Raises? ==> r.exc == NoResultFound
    ensures r.Returns? ==> r.value == users[id]
  {
    One(users, id)
  }

  /** The users whose name contains `fragment` (as `LIKE '%fragment%'`). */
  function NameMatches(users: map<Id, User>, fragment: string): (m: map<Id, User>)
    ensures m.Keys <= users.Keys
    ensures forall k :: k in m <==> k in users && Like(users[k].username, "%" + fragment + "%")
    ensures forall k :: k in m ==> m[k] == users[k]
  {
    map k | k in users && Like(users[k].username, "%" + fragment + "%") :: users[k]
  }

  /** No `ORDER BY`: every order of the matches is allowed. */
  function Unordered(u: User): seq<int>
  {
    []
  }

  /** `get_user_by_usersearch`: page `page` of `count` users whose name contains
      `fragment`, in no particular order. A page before the first, or a negative count,
      makes `OFFSET`/`LIMIT` negative, which the database refuses. */
  method UserSearch(db: Store, fragment: string, page: int, count: int) returns (r: Outcome<seq<User>>)
    ensures r.Raises? <==> count * (page - 1) < 0 || count < 0
    ensures r.Raises? ==> r.exc == InvalidLimit
    ensures r.Returns? ==> |r.value| <= count
    ensures r.Returns? ==> forall i :: 0 <= i < |r.value| ==>
      r.value[i] in db.users.Values && Like(r.value[i].username, "%" + fragment + "%")
    ensures r.Returns? ==> exists rows :: (IsListing(rows, NameMatches(db.users, fragment), Unordered, false)
      && r.value == Window(rows, count * (page - 1), count))
  {
    var matches := NameMatches(db.users, fragment);
    r := SelectPage(matches, Unordered, false, count * (page - 1), count);
    if r.Returns? {
      ghost var rows :| IsListing(rows, matches, Unordered, false) && r.value == Window(rows, count * (page - 1), count);
      ListingRows(rows, matches, Unordered, false);
      forall i | 0 <= i < |r.value|
        ensures r.value[i] in db.users.Values && Like(r.value[i].username, "%" + fragment + "%")
      {
        assert r.value[i] == rows[count * (page - 1) + i];
        assert r.value[i] in matches.Values;
      }
    }
  }

  // ---------------------------------------------------------------------------
  // Account creation
  // ---------------------------------------------------------------------------

  /** What `insert_user` demands: an unused name, and no empty field. */
  predicate AcceptsNewUser(users: map<Id, User>, req: UserChangeRequest)
  {
    Named(users, req.newUsername) == {} && |req.newUsername| > 0 && |req.newPassword| > 0 && |req.newDescription| > 0
  }

  /** A fresh account: not an admin, no picture, never commented. */
  function NewUser(id: Id, req: UserChangeRequest, hash: string): (u: User)
    ensures u.id == id && u.username == req.newUsername && u.description == req.newDescription
    ensures u.hashedPass == hash && !u.isAdmin && u.profilePicture.None? && u.lastCommentAt.None?
  {
    User(id, req.newUsername, req.newDescription, hash, false, None, None)
  }

  /** `insert_user`: a taken name is refused first, then an empty name, password or
      description; otherwise exactly one non-admin user is added. `hash` stands for the
      password hash. */
  method InsertUser(db: Store, req: UserChangeRequest, hash: string) returns (r: bool)
    requires db.Valid()
    modifies db
    ensures db.Valid()
    ensures r <==> AcceptsNewUser(old(db.users), req)
    ensures !r ==> db.Tables() == old(db.Tables())
    ensures r ==> exists id :: (id !in old(db.users)
      && db.Tables() == old(db.Tables()).(users := old(db.users)[id := NewUser(id, req, hash)]))
  {
    var sameName := Named(db.users, req.newUsername);
    if sameName != {} {
      return false;
    }
    if |req.newUsername| == 0 {
      return false;
    }
    if |req.newPassword| == 0 {
      return false;
    }
    if |req.newDescription| == 0 {
      return false;
    }
    var id := NextId(db.users);
    var before := db.Tables();
    NewUserKeepsConsistent(before, id, req, hash);
    db.users := db.users[id := NewUser(id, req, hash)];
    return true;
  }

  lemma NewUserKeepsConsistent(d: Db, id: Id, req: UserChangeRequest, hash: string)
    requires Consistent(d) && id !in d.users && Named(d.users, req.newUsername) == {}
    ensures Consistent(d.(users := d.users[id := NewUser(id, req, hash)]))
  {
    var users' := d.users[id := NewUser(id, req, hash)];
    forall a, b | a in users' && b in users' && users'[a].username == users'[b].username
      ensures a == b
    {
      if a != id && b != id {
        assert d.users[a].username == d.users[b].username;
      }
    }
  }

  // ---------------------------------------------------------------------------
  // Partial update
  // ---------------------------------------------------------------------------

  /** The users whose description contains `fragment` (as `LIKE '%fragment%'`). */
  function DescriptionMatches(users: map<Id, User>, fragment: string): (ks: set<Id>)
    ensures ks <= users.Keys
    ensures forall k :: k in ks <==> k in users && Like(users[k].description, "%" + fragment + "%")
  {
    set k | k in users && Like(users[k].description, "%" + fragment + "%")
  }

  /** The update applied to an account: each of name, password and description changes
      only when a non-empty value is supplied; everything else stays. */
  function Patched(u: User, req: UserChangeRequest, hash: string): (v: User)
    ensures v.id == u.id && v.isAdmin == u.isAdmin
    ensures v.profilePicture == u.profilePicture && v.lastCommentAt == u.lastCommentAt
    ensures v.username == (if |req.newUsername| > 0 then req.newUsername else u.username)
    ensures v.hashedPass == (if |req.newPassword| > 0 then hash else u.hashedPass)
    ensures v.description == (if |req.newDescription| > 0 then req.newDescription else u.description)
  {
    var v := if |req.newUsername| > 0 then u.(username := req.newUsername) else u;
    var v := if |req.newPassword| > 0 then v.(hashedPass := hash) else v;
    if |req.newDescription| > 0 then v.(description := req.newDescription) else v
  }

  /** An update with every field empty changes nothing. */
  lemma PatchedEmpty(u: User, hash: string)
    ensures Patched(u, UserChangeRequest("", "", ""), hash) == u
  {
  }

  /** Applying the same update twice is the same as applying it once. */
  lemma PatchedIdempotent(u: User, req: UserChangeRequest, hash: string)
    ensures Patched(Patched(u, req, hash), req, hash) == Patched(u, req, hash)
  {
  }

  /** The guard of `update_user`: some user already has the new name and exactly one user's
      description contains the new description (two or more make the second query raise). */
  predicate UpdateRejected(users: map<Id, User>, req: UserChangeRequest)
  {
    Named(users, req.newUsername) != {} && |DescriptionMatches(users, req.newDescription)| == 1
  }

  /** The new name is non-empty and already belongs to a user other than the account being
      updated, so the unique constraint on `username` refuses the commit. */
  predicate NameTakenByOther(users: map<Id, User>, username: string, req: UserChangeRequest)
  {
    |req.newUsername| > 0 && Named(users, req.newUsername) - Named(users, username) != {}
  }

  /** `update_user` reaches its commit and the commit goes through. */
  predicate UpdateSucceeds(users: map<Id, User>, username: string, req: UserChangeRequest)
  {
    && |DescriptionMatches(users, req.newDescription)| < 2
    && !UpdateRejected(users, req)
    && Named(users, username) != {}
    && !NameTakenByOther(users, username, req)
  }

  /** As written, an empty new description becomes the pattern `%%`, which every
      description matches. */
  lemma EmptyDescriptionMatchesEveryone(users: map<Id, User>)
    ensures DescriptionMatches(users, "") == users.Keys
  {
    assert "%" + "" + "%" == "%%";
    forall k | k in users ensures Like(users[k].description, "%%") {
      LikeAnything(users[k].description);
    }
  }

  /** Hence, once there are two users, every change that leaves the description alone
      (a new name or a new password only) makes the description query raise
      `MultipleResultsFound`, by the contract of `UpdateUser`. */
  lemma PartialChangeRaises(users: map<Id, User>, req: UserChangeRequest, a: Id, b: Id)
    requires a in users && b in users && a != b && req.newDescription == ""
    ensures |DescriptionMatches(users, req.newDescription)| >= 2
  {
    EmptyDescriptionMatchesEveryone(users);
    var rest := users.Keys - {a};
    assert b in rest;
    assert users.Keys == rest + {a};
  }

  /** The description check as evidently intended: an empty description means "keep the
      current one" and is not looked up, so only a non-empty description shared by two or
      more users makes the query raise. */
  predicate IntendedUpdateRaises(users: map<Id, User>, req: UserChangeRequest)
  {
    req.newDescription != "" && |DescriptionMatches(users, req.newDescription)| >= 2
  }

  /** With the intended check, a change that leaves the description alone never raises,
      however many users there are; a non-empty description still raises exactly when two
      or more users' descriptions contain it. */
  lemma IntendedPartialChangeNeverRaises(users: map<Id, User>, req: UserChangeRequest)
    ensures req.newDescription == "" ==> !IntendedUpdateRaises(users, req)
    ensures req.newDescription != "" ==>
      (IntendedUpdateRaises(users, req) <==> exists a, b :: a != b && a in DescriptionMatches(users, req.newDescription)
                                                             && b in DescriptionMatches(users, req.newDescription))
  {
    if req.newDescription != "" {
      var ks := DescriptionMatches(users, req.newDescription);
      if |ks| >= 2 {
        assert (forall j :: j !in ks) ==> ks == {};
        var a :| a in ks;
        var rest := ks - {a};
        assert |rest| >= 1;
        assert (forall j :: j !in rest) ==> rest == {};
        var b :| b in rest;
        assert a != b && b in ks;
      }
      if exists a, b :: a != b && a in ks && b in ks {
        var a, b :| a != b && a in ks && b in ks;
        var rest := ks - {a};
        assert b in rest;
        assert ks == rest + {a};
      }
    }
  }

  /** `update_user`, as written. The description query raises on two or more matches; a
      taken name together with one matching description is refused; an unknown account is
      refused; otherwise the account is patched, and the commit fails on the unique
      constraint when the new name belongs to another user. */
  method UpdateUser(db: Store, username: string, req: UserChangeRequest, hash: string) returns (r: Outcome<bool>)
    requires db.Valid()
    modifies db
    ensures db.Valid()
    ensures r == Raises(MultipleResultsFound) <==> |DescriptionMatches(old(db.users), req.newDescription)| >= 2
    ensures r == Returns(false) <==> (|DescriptionMatches(old(db.users), req.newDescription)| < 2
      && (UpdateRejected(old(db.users), req) || Named(old(db.users), username) == {}))
    ensures r == Raises(IntegrityError) <==> (|DescriptionMatches(old(db.users), req.newDescription)| < 2
      && !UpdateRejected(old(db.users), req)
      && Named(old(db.users), username) != {}
      && NameTakenByOther(old(db.users), username, req))
    ensures r == Returns(true) <==> UpdateSucceeds(old(db.users), username, req)
    ensures r.Raises? ==> r.exc == MultipleResultsFound || r.exc == IntegrityError
    ensures r != Returns(true) ==> db.Tables() == old(db.Tables())
    ensures r == Returns(true) ==> exists k :: (Named(old(db.users), username) == {k}
      && db.Tables() == old(db.Tables()).(users := old(db.users)[k := Patched(old(db.users)[k], req, hash)]))
  {
    AtMostOneNamed(db.users, req.newUsername);
    var sameName := OneOrNoneWhere(db.users, Named(db.users, req.newUsername));
    if sameName.Raises? {
      assert false;
    }
    var sameDescription := OneOrNoneWhere(db.users, DescriptionMatches(db.users, req.newDescription));
    if sameDescription.Raises? {
      return Raises(sameDescription.exc);
    }
    if sameName.value.Some? && sameDescription.value.Some? {
      return Returns(false);
    }
    AtMostOneNamed(db.users, username);
    var entity := OneOrNoneWhere(db.users, Named(db.users, username));
    if entity.Raises? || entity.value.None? {
      return Returns(false);
    }
    var u := entity.value.value;
    ghost var k :| Named(db.users, username) == {k} && u == db.users[k];
    assert k in Named(db.users, username);
    assert u.id == k;
    var v := Patched(u, req, hash);
    if Named(db.users, v.username) - {u.id} != {} {
      // the unique constraint on `username` refuses the commit
      return Raises(IntegrityError);
    }
    PatchKeepsConsistent(db.Tables(), k, v);
    db.users := db.users[u.id := v];
    return Returns(true);
  }

  lemma PatchKeepsConsistent(d: Db, k: Id, v: User)
    requires Consistent(d) && k in d.users && v.id == k
    requires Named(d.users, v.username) - {k} == {}
    ensures Consistent(d.(users := d.users[k := v]))
  {
    var users' := d.users[k := v];
    assert forall j :: j in d.users && j != k ==> (j in Named(d.users, v.username) - {k} <==> d.users[j].username == v.username);
    forall a, b | a in users' && b in users' && users'[a].username == users'[b].username
      ensures a == b
    {
      if a != k && b != k {
        assert d.users[a].username == d.users[b].username;
      }
    }
  }

  // ---------------------------------------------------------------------------
  // Submission bookkeeping for external users
  // ---------------------------------------------------------------------------

  /** The keys of the records kept for external user `userId`. */
  function RecordsOf(submitUsers: map<Id, SubmitUser>, userId: string): (ks: set<Id>)
    ensures forall k :: k in ks <==> k in submitUsers && submitUsers[k].userId == userId
  {
    set k | k in submitUsers && submitUsers[k].userId == userId
  }

  /** `get_submit_user`: the record of an external user, or nothing. */
  method GetSubmitUser(db: Store, userId: string) returns (r: Option<SubmitUser>)
    ensures r.None? <==> RecordsOf(db.submitUsers, userId) == {}
    ensures r.Some? ==> r.value.userId == userId && r.value in db.submitUsers.Values
  {
    var ks := RecordsOf(db.submitUsers, userId);
    if ks == {} {
      return None;
    }
    assert (forall j :: j !in ks) ==> ks == {};
    var k :| k in ks;
    return Some(db.submitUsers[k]);
  }

  /** `post_submit_user`: an insert that, on the unique `user_id`, turns into an update of the
      existing record. Afterwards exactly one record belongs to `userId` and it holds the
      request's values; every other record is as it was. */
  method PostSubmitUser(db: Store, userId: string, req: SubmitUserRequest) returns (r: string)
    requires db.Valid()
    modifies db
    ensures db.Valid()
    ensures r == "Updated submit user."
    ensures exists k :: (RecordsOf(db.submitUsers, userId) == {k}
      && (k in old(db.submitUsers) ==> old(db.submitUsers)[k].userId == userId)
      && db.Tables() == old(db.Tables()).(submitUsers :=
           old(db.submitUsers)[k := SubmitUser(k, userId, req.lastSubmitOn, req.isBanned, req.banReason)]))
  {
    var ks := RecordsOf(db.submitUsers, userId);
    var k: Id;
    if ks == {} {
      k := NextId(db.submitUsers);
    } else {
      assert (forall j :: j !in ks) ==> ks == {};
      k :| k in ks;
    }
    var before := db.Tables();
    UpsertKeepsConsistent(before, k, userId, req);
    db.submitUsers := db.submitUsers[k := SubmitUser(k, userId, req.lastSubmitOn, req.isBanned, req.banReason)];
    return "Updated submit user.";
  }

  lemma UpsertKeepsConsistent(d: Db, k: Id, userId: string, req: SubmitUserRequest)
    requires Consistent(d)
    requires k in d.submitUsers ==> d.submitUsers[k].userId == userId
    requires k !in d.submitUsers ==> RecordsOf(d.submitUsers, userId) == {}
    ensures var s := d.submitUsers[k := SubmitUser(k, userId, req.lastSubmitOn, req.isBanned, req.banReason)];
      Consistent(d.(submitUsers := s)) && RecordsOf(s, userId) == {k}
  {
    var s := d.submitUsers[k := SubmitUser(k, userId, req.lastSubmitOn, req.isBanned, req.banReason)];
    forall j | j in s && s[j].userId == userId
      ensures j == k
    {
    }
    forall a, b | a in s && b in s && s[a].userId == s[b].userId
      ensures a == b
    {
      if a != k && b != k {
        assert d.submitUsers[a].userId == d.submitUsers[b].userId;
      }
    }
  }
}
