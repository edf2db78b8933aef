/** The account endpoints: who may delete accounts and change pictures, the validation of an
    account change before it reaches the user service, and how service answers become HTTP
    answers. */
module UserRouter {
  import opened Wrappers
  import opened Schema
  import opened Text
  import opened Database
  import opened Users

  /** An HTTP answer: a JSON message, an error status with its detail, or 204. */
  datatype Reply = Ok(msg: string) | Fail(code: int, detail: string) | NoContent

  // ---------------------------------------------------------------------------
  // The username pattern ^[A-Za-z0-9_]{1,32}$
  // ---------------------------------------------------------------------------

  predicate IsUsernameChar(c: char)
  {
    'A' <= c <= 'Z' || 'a' <= c <= 'z' || '0' <= c <= '9' || c == '_'
  }

  /** One to 32 characters from `[A-Za-z0-9_]`. */
  ghost predicate IsUsername(t: string)
  {
    1 <= |t| <= 32 && forall i :: 0 <= i < |t| ==> IsUsernameChar(t[i])
  }

  /** The length of the longest prefix of `s` made of username characters. */
  function UsernameRun(s: string): (n: nat)
    ensures n <= |s|
    ensures forall i :: 0 <= i < n ==> IsUsernameChar(s[i])
    ensures n < |s| ==> !IsUsernameChar(s[n])
  {
    if s != [] && IsUsernameChar(s[0]) then 1 + UsernameRun(s[1..]) else 0
  }

  /** `re.match` of the username pattern, as the router uses it: `$` also matches just
      before a final newline, so one trailing `\n` is let through. */
  function MatchesUsernamePattern(s: string): (b: bool)
    ensures b <==> IsUsername(s) || (|s| >= 1 && s[|s| - 1] == '\n' && IsUsername(s[..|s| - 1]))
  {
    var n := UsernameRun(s);
    1 <= n <= 32 && (n == |s| || (n == |s| - 1 && s[n] == '\n'))
  }

  /** A name with a trailing newline passes the pattern. */
  lemma TrailingNewlineAccepted()
    ensures MatchesUsernamePattern("nikodex\n") && !IsUsername("nikodex\n")
  {
    assert IsUsername("nikodex");
    assert "nikodex\n"[..7] == "nikodex";
    assert !IsUsernameChar("nikodex\n"[7]);
  }

  /** The pattern anchored at both ends (`re.fullmatch`): exactly the usernames. */
  function FullyMatchesUsernamePattern(s: string): (b: bool)
    ensures b <==> IsUsername(s)
    ensures b ==> forall i :: 0 <= i < |s| ==> s[i] != '\n'
  {
    var n := UsernameRun(s);
    1 <= n <= 32 && n == |s|
  }

  // ---------------------------------------------------------------------------
  // change_user
  // ---------------------------------------------------------------------------

  const UsernameDetail: string :=
    "Username too long or contain invalid characters (max length of 32, character in A-Z, a-z, 0-9 and _)!"
  const PasswordDetail: string := "Password too long (max 128 characters)!"
  const DescriptionDetail: string := "Description too long (max 256 characters)!"

  /** The checks `change_user` makes before calling the service, in order: a username that
      is not blank must match the pattern; the password may have at most 128 characters and
      the description at most 256. A blank (all-whitespace) username is not checked. */
  function ValidateChange(req: UserChangeRequest): (r: Option<Reply>)
    ensures r.None? <==> ((AllSpace(req.newUsername) || MatchesUsernamePattern(req.newUsername))
      && |req.newPassword| <= 128 && |req.newDescription| <= 256)
    ensures !AllSpace(req.newUsername) && !MatchesUsernamePattern(req.newUsername) ==> r == Some(Fail(400, UsernameDetail))
    ensures (AllSpace(req.newUsername) || MatchesUsernamePattern(req.newUsername)) && |req.newPassword| > 128
      ==> r == Some(Fail(400, PasswordDetail))
    ensures r.Some? ==> r.value.Fail? && r.value.code == 400
  {
    StripEmptyIff(req.newUsername);
    if |Strip(req.newUsername)| > 0 && !MatchesUsernamePattern(req.newUsername) then Some(Fail(400, UsernameDetail))
    else if |req.newPassword| > 128 then Some(Fail(400, PasswordDetail))
    else if |req.newDescription| > 256 then Some(Fail(400, DescriptionDetail))
    else None
  }

  /** A whitespace-only username is waved through, although it is not a username. */
  lemma BlankUsernamePasses()
    ensures ValidateChange(UserChangeRequest(" ", "", "")).None? && !IsUsername(" ")
  {
    assert AllSpace(" ");
  }

  /** `change_user`: validation first (nothing changes when it fails), then `update_user`
      on the caller's own account; False becomes 404 and True 204, and an exception from
      the service propagates. */
  method ChangeUser(db: Store, current: User, req: UserChangeRequest, hash: string) returns (r: Outcome<Reply>)
    requires db.Valid()
    modifies db
    ensures db.Valid()
    ensures ValidateChange(req).Some? ==> r == Returns(ValidateChange(req).value) && db.Tables() == old(db.Tables())
    ensures ValidateChange(req).None? ==> (r == Returns(Fail(404, "Cannot find user with specified ID!")) <==>
      (|DescriptionMatches(old(db.users), req.newDescription)| < 2
       && (UpdateRejected(old(db.users), req) || Named(old(db.users), current.username) == {})))
    ensures r == Returns(NoContent) <==> ValidateChange(req).None? && UpdateSucceeds(old(db.users), current.username, req)
    ensures r.Raises? <==> (ValidateChange(req).None? && (|DescriptionMatches(old(db.users), req.newDescription)| >= 2
      || (!UpdateRejected(old(db.users), req) && Named(old(db.users), current.username) != {}
          && NameTakenByOther(old(db.users), current.username, req))))
    ensures r.Raises? ==> r.exc == MultipleResultsFound || r.exc == IntegrityError
    ensures r == Returns(NoContent) ==> ValidateChange(req).None? && exists k :: (Named(old(db.users), current.username) == {k}
      && db.Tables() == old(db.Tables()).(users := old(db.users)[k := Patched(old(db.users)[k], req, hash)]))
    ensures r == Returns(Fail(404, "Cannot find user with specified ID!")) ==> db.Tables() == old(db.Tables())
    ensures r.Raises? ==> db.Tables() == old(db.Tables())
  {
    var invalid := ValidateChange(req);
    if invalid.Some? {
      return Returns(invalid.value);
    }
    var res := UpdateUser(db, current.username, req, hash);
    if res.Raises? {
      return Raises(res.exc);
    }
    if res.value {
      return Returns(NoContent);
    }
    return Returns(Fail(404, "Cannot find user with specified ID!"));
  }

  // ---------------------------------------------------------------------------
  // post_user
  // ---------------------------------------------------------------------------

  /** `post_user`: `insert_user`, with a refusal turned into 400. */
  method PostUser(db: Store, req: UserChangeRequest, hash: string) returns (r: Reply)
    requires db.Valid()
    modifies db
    ensures db.Valid()
    ensures r == Ok("Successfully created user.") <==> AcceptsNewUser(old(db.users), req)
    ensures r != Ok("Successfully created user.") ==> r == Fail(400, "Couldn't create user.") && db.Tables() == old(db.Tables())
    ensures r == Ok("Successfully created user.") ==> exists id :: (id !in old(db.users)
      && db.Tables() == old(db.Tables()).(users := old(db.users)[id := NewUser(id, req, hash)]))
  {
    var res := InsertUser(db, req, hash);
    if res {
      return Ok("Successfully created user.");
    }
    return Fail(400, "Couldn't create user.");
  }

  // ---------------------------------------------------------------------------
  // Permissions
  // ---------------------------------------------------------------------------

  /** The guard of `delete_user`, as written: it admits exactly the admins, whoever the
      target is — a user cannot delete their own account. */
  function MayDeleteUser(actor: User, id: Id): (b: bool)
    ensures b <==> actor.isAdmin
  {
    !(!actor.isAdmin || (actor.id != id && !actor.isAdmin))
  }

  /** The guard of `put_profile_picture`: only an admin, and only on their own account. */
  function MayPutProfilePicture(actor: User, userId: Id): (b: bool)
    ensures b <==> actor.isAdmin && actor.id == userId
    ensures !actor.isAdmin ==> !b
  {
    !(actor.id != userId || !actor.isAdmin)
  }

  /** The guard of `delete_profile_picture`: admins only. */
  function MayDeleteProfilePicture(actor: User): (b: bool)
    ensures b <==> actor.isAdmin
  {
    !(!actor.isAdmin)
  }

  /** An admin may not change another user's picture, and nobody but an admin may change
      their own. */
  lemma PutProfilePictureIsSelfAdminOnly(actor: User, other: Id)
    requires other != actor.id
    ensures !MayPutProfilePicture(actor, other)
    ensures MayPutProfilePicture(actor, actor.id) <==> actor.isAdmin
  {
  }

  /** `delete_user`: 403 for a non-admin; otherwise the account is removed together with
      everything that references it, answering 404 for an unknown id. */
  method DeleteUser(db: Store, id: Id, actor: User) returns (r: Reply)
    requires db.Valid()
    modifies db
    ensures db.Valid()
    ensures !actor.isAdmin ==> r == Fail(403, "Forbidden.")
    ensures actor.isAdmin && id !in old(db.users) ==> r == Fail(404, "User not found.")
    ensures r == Ok("Deleted user.") <==> actor.isAdmin && id in old(db.users)
    ensures r == Ok("Deleted user.") ==> db.Tables() == DeleteUserCascade(old(db.Tables()), id)
    ensures r != Ok("Deleted user.") ==> db.Tables() == old(db.Tables())
  {
    if !MayDeleteUser(actor, id) {
      return Fail(403, "Forbidden.");
    }
    if id !in db.users {
      return Fail(404, "User not found.");
    }
    var before := db.Tables();
    DeleteUserCascadeSound(before, id);
    db.Commit(DeleteUserCascade(before, id));
    return Ok("Deleted user.");
  }
}
