/** The submission service: niko proposals sent with a picture, listed newest first, and
    removed together with their picture file. */
module Submissions {
  import opened Wrappers
  import opened Schema
  import opened Listing
  import opened Database
  import opened Images

  datatype SubmitForm = SubmitForm(name: string, description: string, fullDesc: string, isBlacklisted: bool)

  /** `ORDER BY submit_date DESC`. */
  function SubmitDateKey(s: Submission): seq<int>
  {
    [s.submitDate]
  }

  /** `get_submissions`: every submission once, newest first. */
  method GetSubmissions(db: Store) returns (rows: seq<Submission>)
    ensures IsListing(rows, db.submissions, SubmitDateKey, true)
    ensures |rows| == |db.submissions|
    ensures forall i, j :: 0 <= i < j < |rows| ==> rows[i].submitDate >= rows[j].submitDate
  {
    rows := Select(db.submissions, SubmitDateKey, true);
    NewestSubmissionsFirst(rows, db.submissions);
  }

  lemma NewestSubmissionsFirst(rows: seq<Submission>, table: map<Id, Submission>)
    requires IsListing(rows, table, SubmitDateKey, true)
    ensures forall i, j :: 0 <= i < j < |rows| ==> rows[i].submitDate >= rows[j].submitDate
  {
    forall i, j | 0 <= i < j < |rows| ensures rows[i].submitDate >= rows[j].submitDate {
      assert Before(SubmitDateKey, true, rows[i], rows[j]);
      SeqLeSingleton(rows[j].submitDate, rows[i].submitDate);
    }
  }

  /** `get_submission_by_id`: the submission, or `NoResultFound`. */
  function GetSubmissionById(submissions: map<Id, Submission>, id: Id): (r: Outcome<Submission>)
    ensures r.Raises? <==> id !in submissions
    ensures r.Raises? ==> r.exc == NoResultFound
    ensures r.Returns? ==> r.value == submissions[id]
  {
    One(submissions, id)
  }

  /** No `ORDER BY`: every order of the matches is allowed. */
  function Unordered(s: Submission): seq<int>
  {
    []
  }

  /** The submissions of one user. */
  function SubmissionsOf(submissions: map<Id, Submission>, userId: Id): (m: map<Id, Submission>)
    ensures forall k :: k in m <==> k in submissions && submissions[k].userId == userId
    ensures forall k :: k in m ==> m[k] == submissions[k]
  {
    map k | k in submissions && submissions[k].userId == userId :: submissions[k]
  }

  /** `get_submissions_by_userid`: every submission of `userId` once, in no particular order. */
  method GetSubmissionsByUserId(db: Store, userId: Id) returns (rows: seq<Submission>)
    ensures IsListing(rows, SubmissionsOf(db.submissions, userId), Unordered, false)
    ensures forall i :: 0 <= i < |rows| ==> rows[i].userId == userId && rows[i] in db.submissions.Values
  {
    var mine := SubmissionsOf(db.submissions, userId);
    rows := Select(mine, Unordered, false);
    ListingRows(rows, mine, Unordered, false);
    forall i | 0 <= i < |rows| ensures rows[i].userId == userId && rows[i] in db.submissions.Values {
      assert rows[i] in mine.Values;
    }
  }

  /** `get_submission_image`: nothing for an unknown submission; otherwise its picture file,
      or the default picture when it has none or the file is gone. */
  function GetSubmissionImage(submissions: map<Id, Submission>, files: set<string>, id: Id): (r: Option<ImagePath>)
    ensures r.None? <==> id !in submissions
    ensures r.Some? && r.value.InImageDir? ==> r.value.name == submissions[id].image && r.value.name in files
    ensures r.Some? && r.value.DefaultImage? ==> submissions[id].image == "" || submissions[id].image !in files
  {
    match OneOrNone(submissions, id)
    case None => None
    case Some(s) => Some(StoredImage(s.image, files))
  }

  /** `insert_submission`: False, with nothing written, for an upload that fails a check;
      otherwise the picture is saved as `{identifier}.png` and a submission by `userId`
      dated `now` is inserted with it. The submitter is not checked: for an unknown user the
      foreign key refuses the row at commit, after the file has been written. */
  method InsertSubmission(db: Store, req: SubmitForm, userId: Id, u: Upload, identifier: string, now: Time)
    returns (r: Outcome<bool>)
    requires db.Valid()
    modifies db
    ensures db.Valid()
    ensures r == Returns(false) <==> CheckUpload(u) != Accepted
    ensures r == Returns(false) ==> db.Tables() == old(db.Tables())
    ensures r.Raises? <==> CheckUpload(u) == Accepted && userId !in old(db.users)
    ensures r.Raises? ==> r.exc == IntegrityError
    ensures r.Raises? ==> db.Tables() == old(db.Tables()).(files := old(db.files) + {SavedImageName(identifier)})
    ensures r == Returns(true) ==> exists id :: (id !in old(db.submissions)
      && db.Tables() == old(db.Tables()).(
           files := old(db.files) + {SavedImageName(identifier)},
           submissions := old(db.submissions)[id := Submission(id, userId, now, req.name, req.description,
                                                              req.fullDesc, SavedImageName(identifier), req.isBlacklisted)]))
  {
    if !IsImageType(u) {
      return Returns(false);
    }
    if !IsAcceptedSize(u) {
      return Returns(false);
    }
    if !u.decodes {
      return Returns(false);
    }
    var name := SavedImageName(identifier);
    db.files := db.files + {name};
    if userId !in db.users {
      // the foreign key on `user_id` refuses the row at commit
      return Raises(IntegrityError);
    }
    var id := NextId(db.submissions);
    db.submissions := db.submissions[id := Submission(id, userId, now, req.name, req.description,
                                                      req.fullDesc, name, req.isBlacklisted)];
    return Returns(true);
  }

  /** `delete_submission`: `NoResultFound` for an unknown id; otherwise the picture file is
      removed when the submission names one that exists, and the row is deleted. */
  method DeleteSubmission(db: Store, id: Id) returns (r: Outcome<()>)
    requires db.Valid()
    modifies db
    ensures db.Valid()
    ensures r.Raises? <==> id !in old(db.submissions)
    ensures r.Raises? ==> r.exc == NoResultFound && db.Tables() == old(db.Tables())
    ensures r.Returns? ==> db.Tables() == old(db.Tables()).(
      files := if old(db.submissions)[id].image != "" then old(db.files) - {old(db.submissions)[id].image} else old(db.files),
      submissions := old(db.submissions) - {id})
  {
    var entity := One(db.submissions, id);
    if entity.Raises? {
      return Raises(entity.exc);
    }
    if |entity.value.image| > 0 {
      if entity.value.image in db.files {
        db.files := db.files - {entity.value.image};
      }
    }
    db.submissions := db.submissions - {id};
    return Returns(());
  }
}
