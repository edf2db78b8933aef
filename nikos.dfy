/** The catalogue service: listing and paging nikos in one of four orders, the daily pick,
    and inserting, editing (with its ownership check) and deleting nikos. */
module Nikos {
  import opened Wrappers
  import opened Schema
  import opened Text
  import opened Listing
  import opened Database
  import opened Rotation
  import opened Images

  // ---------------------------------------------------------------------------
  // Sort orders
  // ---------------------------------------------------------------------------

  datatype SortType = RecentlyAdded | OldestAdded | NameAscending | NameDescending

  function CodePoints(s: string): (cs: seq<int>)
    ensures |cs| == |s|
    ensures forall i :: 0 <= i < |s| ==> cs[i] == s[i] as int
  {
    seq(|s|, i requires 0 <= i < |s| => s[i] as int)
  }

  /** Comparing code point sequences is comparing the strings. */
  lemma {:induction false} CodePointOrder(a: string, b: string)
    ensures SeqLe(CodePoints(a), CodePoints(b)) <==> StrLe(a, b)
    decreases |a|
  {
    if a != [] && b != [] {
      assert CodePoints(a)[1..] == CodePoints(a[1..]);
      assert CodePoints(b)[1..] == CodePoints(b[1..]);
      CodePointOrder(a[1..], b[1..]);
    }
  }

  /** The `ORDER BY` column of each sort type; `oldest_added` adds no `ORDER BY` at all, so
      every order of the rows is a possible answer. */
  function SortKey(sort: SortType): Niko -> seq<int>
  {
    match sort
    case RecentlyAdded => (n: Niko) => [n.id]
    case OldestAdded => (n: Niko) => []
    case NameAscending => (n: Niko) => CodePoints(n.name)
    case NameDescending => (n: Niko) => CodePoints(n.name)
  }

  function SortDescending(sort: SortType): bool
  {
    sort == RecentlyAdded || sort == NameDescending
  }

  /** `recently_added` lists the highest id first. */
  lemma RecentlyAddedOrder(rows: seq<Niko>)
    requires Ordered(rows, SortKey(RecentlyAdded), SortDescending(RecentlyAdded))
    ensures forall i, j :: 0 <= i < j < |rows| ==> rows[i].id >= rows[j].id
  {
    forall i, j | 0 <= i < j < |rows| ensures rows[i].id >= rows[j].id {
      assert Before(SortKey(RecentlyAdded), true, rows[i], rows[j]);
      SeqLeSingleton(rows[j].id, rows[i].id);
    }
  }

  /** `name_ascending` and `name_descending` list names in code point order, forwards or
      backwards. */
  lemma NameOrder(rows: seq<Niko>, sort: SortType)
    requires sort == NameAscending || sort == NameDescending
    requires Ordered(rows, SortKey(sort), SortDescending(sort))
    ensures forall i, j :: 0 <= i < j < |rows| ==>
      if sort == NameAscending then StrLe(rows[i].name, rows[j].name) else StrLe(rows[j].name, rows[i].name)
  {
    forall i, j | 0 <= i < j < |rows|
      ensures if sort == NameAscending then StrLe(rows[i].name, rows[j].name) else StrLe(rows[j].name, rows[i].name)
    {
      assert Before(SortKey(sort), SortDescending(sort), rows[i], rows[j]);
      CodePointOrder(rows[i].name, rows[j].name);
      CodePointOrder(rows[j].name, rows[i].name);
    }
  }

  /** `oldest_added` constrains nothing: any arrangement of the rows is allowed. */
  lemma OldestAddedAnyOrder(rows: seq<Niko>)
    ensures Ordered(rows, SortKey(OldestAdded), SortDescending(OldestAdded))
  {
    forall i, j | 0 <= i < j < |rows| ensures Before(SortKey(OldestAdded), false, rows[i], rows[j]) {
      assert SortKey(OldestAdded)(rows[i]) == [];
    }
  }

  // ---------------------------------------------------------------------------
  // Queries
  // ---------------------------------------------------------------------------

  /** `get_all`: every niko once, in the requested order. */
  method GetAll(db: Store, sort: SortType) returns (rows: seq<Niko>)
    ensures IsListing(rows, db.nikos, SortKey(sort), SortDescending(sort))
    ensures |rows| == |db.nikos|
  {
    rows := Select(db.nikos, SortKey(sort), SortDescending(sort));
  }

  /** `get_nikos_page`: nothing for a page before the first; otherwise at most `count` rows
      of the ordered listing, starting after the first `count * (page - 1)`. */
  method GetNikosPage(db: Store, page: int, count: int, sort: SortType) returns (r: Outcome<Option<seq<Niko>>>)
    ensures page < 1 ==> r == Returns(None)
    ensures page >= 1 && count < 0 ==> r == Raises(InvalidLimit)
    ensures page >= 1 && count >= 0 ==> r.Returns? && r.value.Some? && |r.value.value| <= count
    ensures page >= 1 && count >= 0 ==> exists rows :: IsListing(rows, db.nikos, SortKey(sort), SortDescending(sort))
                                                   && r.value.value == Window(rows, count * (page - 1), count)
  {
    if page < 1 {
      return Returns(None);
    }
    var offset := count * (page - 1);
    assert count >= 0 ==> offset >= 0;
    var rows := SelectPage(db.nikos, SortKey(sort), SortDescending(sort), offset, count);
    match rows
    case Returns(w) => r := Returns(Some(w));
    case Raises(e) => r := Raises(e);
  }

  /** `get_niko_by_id`: the niko, or `NoResultFound`. */
  function GetNikoById(nikos: map<Id, Niko>, id: Id): (r: Outcome<Niko>)
    ensures r.Returns? <==> id in nikos
    ensures r.Raises? ==> r.exc == NoResultFound
    ensures r.Returns? ==> r.value == nikos[id]
    ensures PrimaryKeysOf(nikos) && r.Returns? ==> r.value.id == id
  {
    One(nikos, id)
  }

  ghost predicate PrimaryKeysOf(nikos: map<Id, Niko>)
  {
    forall k :: k in nikos ==> nikos[k].id == k
  }

  // ---------------------------------------------------------------------------
  // Niko of the Day
  // ---------------------------------------------------------------------------

  /** `get_notd` as written: answers None without nikos, fails on an empty history, repeats
      the latest pick before its deadline, and otherwise draws a new niko of the day. */
  method GetNotd(db: Store, now: Time) returns (r: Outcome<Option<NotdAnswer>>)
    requires db.Valid()
    modifies db
    ensures db.Valid()
    ensures NotdStep(old(db.nikos), old(db.notd), now, r, db.notd)
    ensures db.Tables() == old(db.Tables()).(notd := db.notd)
  {
    if |db.nikos| <= 0 {
      return Returns(None);
    }
    var history := Select(Entries(db.notd), ChosenAtKey, true);
    var latest := Window(history, 0, 1);
    if |latest| == 0 {
      // the latest pick is read before the emptiness test
      ListingRows(history, Entries(db.notd), ChosenAtKey, true);
      assert |Entries(db.notd)| == |db.notd|;
      return Raises(IndexError);
    }
    HeadIsLatest(history, db.notd);
    ghost var m := latest[0].nikoId;
    assert HistoryNikosExist(db.nikos, db.notd);
    var refresh := RefreshAt(latest[0].chosenAt);
    if now < refresh {
      var niko := GetNikoById(db.nikos, latest[0].nikoId);
      r := Returns(Some(NotdAnswer(niko.value, refresh)));
      assert AfterLatest(db.nikos, db.notd, now, r, db.notd, m);
      return;
    }
    ghost var notd0 := db.notd;
    var k := DrawNotd(db, now);
    var niko := GetNikoById(db.nikos, k);
    r := Returns(Some(NotdAnswer(niko.value, refresh)));
    assert DrawAnswer(old(db.nikos), notd0, now, r, db.notd, k, refresh);
    assert AfterLatest(old(db.nikos), notd0, now, r, db.notd, m);
  }

  /** The drawing loop of `get_notd`: picks a niko that is not in the history, and when
      there is none wipes the history (`niko_id > -1` holds for every row) and tries again,
      which then succeeds; the pick is recorded at `now`. */
  method DrawNotd(db: Store, now: Time) returns (k: Id)
    requires db.Valid() && db.nikos != map[]
    modifies db
    ensures db.Valid()
    ensures Drawn(old(db.nikos), old(db.notd), now, k, db.notd)
    ensures db.Tables() == old(db.Tables()).(notd := db.notd)
  {
    var newNotd: Option<Niko> := None;
    var wiped := false;
    while true
      invariant db.Tables() == old(db.Tables()).(notd := db.notd)
      invariant !wiped ==> db.notd == old(db.notd)
      invariant wiped ==> db.notd == map[] && Exhausted(db.nikos, old(db.notd))
      decreases if wiped then 0 else 1
    {
      var eligible := set j | j in db.nikos && j !in db.notd;
      if wiped {
        var j := PickKey(db.nikos);
        assert j in eligible;
      }
      if |eligible| <= 0 {
        assert Exhausted(db.nikos, db.notd) by {
          forall j | j in db.nikos ensures j in db.notd {
            assert j !in eligible;
          }
        }
        assert HistoryNikosExist(db.nikos, db.notd) && NikoIds(db.nikos);
        db.notd := DeleteWhereAbove(db.notd, -1);
        assert db.notd == map[];
        wiped := true;
      } else {
        assert (forall x :: x !in eligible) ==> eligible == {};
        var j :| j in eligible;
        newNotd := Some(db.nikos[j]);
        break;
      }
    }
    k := newNotd.value.id;
    assert k in db.nikos && k !in db.notd;
    db.notd := db.notd[k := now];
    assert Drawn(old(db.nikos), old(db.notd), now, k, db.notd);
    HistoryAfterDraw(old(db.Tables()), now, k, db.notd);
  }

  // ---------------------------------------------------------------------------
  // Changes
  // ---------------------------------------------------------------------------

  /** The fields of a niko that a request supplies. */
  datatype NikoRequest = NikoRequest(
    name: string,
    description: string,
    fullDesc: string,
    isBlacklisted: bool,
    authorId: Option<int>)

  /** `insert_niko`: a new niko with an empty `doc` and free-text `author`, owned by the
      requested user. The owner is not checked beforehand; an unknown one is refused by the
      foreign key when the row is written. */
  method InsertNiko(db: Store, req: NikoRequest) returns (r: Outcome<string>)
    requires db.Valid()
    modifies db
    ensures db.Valid()
    ensures r.Raises? <==> req.authorId.Some? && req.authorId.value !in old(db.users)
    ensures r.Raises? ==> r.exc == IntegrityError && db.Tables() == old(db.Tables())
    ensures r.Returns? ==> r.value == "Inserted Niko."
    ensures r.Returns? ==> exists id :: id !in old(db.nikos) && db.Tables() == old(db.Tables()).(nikos :=
      old(db.nikos)[id := Niko(id, req.name, req.description, "", "", req.fullDesc, req.isBlacklisted, req.authorId)])
  {
    if req.authorId.Some? && req.authorId.value !in db.users {
      return Raises(IntegrityError);
    }
    var id := NextId(db.nikos);
    db.nikos := db.nikos[id := Niko(id, req.name, req.description, "", "", req.fullDesc, req.isBlacklisted, req.authorId)];
    return Returns("Inserted Niko.");
  }

  /** A niko inserted by `InsertNiko` starts with no abilities. */
  lemma InsertedNikoHasNoAbilities(before: Db, after: Db, id: Id)
    requires Consistent(before) && id !in before.nikos && after.abilities == before.abilities
    ensures AbilitiesOf(after.abilities, id) == {}
  {
    FreshNikoHasNoAbilities(before, id);
  }

  /** May `actor` edit `n`? Admins may edit any niko; other users only the ones they own. */
  predicate MayEditNiko(actor: User, n: Niko)
  {
    actor.isAdmin || n.authorId == Some(actor.id)
  }

  /** The owner a request asks for: a non-negative id, or nobody for a missing or negative one. */
  function RequestedOwner(authorId: Option<int>): (o: Option<Id>)
    ensures o.Some? <==> authorId.Some? && authorId.value >= 0
    ensures o.Some? ==> o == authorId
  {
    if authorId.Some? && authorId.value >= 0 then authorId else None
  }

  /** `update_niko`: looks up the niko and then the acting user, decides whether the user
      may edit it, and if so overwrites the four request fields and the owner. Every refusal
      leaves the store as it was, including an owner id that names no user: the fields were
      already assigned but nothing is committed. */
  method UpdateNiko(db: Store, id: Id, req: NikoRequest, userId: Id) returns (r: Msg)
    requires db.Valid()
    modifies db
    ensures db.Valid()
    ensures id !in old(db.nikos) ==> r == Msg("This Niko does not exist.", true)
    ensures id in old(db.nikos) && userId !in old(db.users) ==> r == Msg("Who are you?", true)
    ensures id in old(db.nikos) && userId in old(db.users) && !MayEditNiko(old(db.users)[userId], old(db.nikos)[id])
      ==> r == Msg("Unauthorized", true)
    ensures (id in old(db.nikos) && userId in old(db.users) && MayEditNiko(old(db.users)[userId], old(db.nikos)[id])
             && RequestedOwner(req.authorId).Some? && RequestedOwner(req.authorId).value !in old(db.users))
      ==> r == Msg("Specified author ID does not exist.", true)
    ensures r.err ==> db.Tables() == old(db.Tables())
    ensures !r.err <==> id in old(db.nikos) && userId in old(db.users) && MayEditNiko(old(db.users)[userId], old(db.nikos)[id])
                         && (RequestedOwner(req.authorId).None? || RequestedOwner(req.authorId).value in old(db.users))
    ensures !r.err ==> r.text == "Updated Niko." && db.Tables() == old(db.Tables()).(nikos := old(db.nikos)[id :=
      old(db.nikos)[id].(name := req.name, description := req.description, fullDesc := req.fullDesc,
                         isBlacklisted := req.isBlacklisted, authorId := RequestedOwner(req.authorId))])
  {
    var user := OneOrNone(db.users, userId);
    var entity := OneOrNone(db.nikos, id);
    var allowed := false;
    if entity.None? {
      return Msg("This Niko does not exist.", true);
    }
    if user.None? {
      return Msg("Who are you?", true);
    }
    var owner := if entity.value.authorId.Some? then OneOrNone(db.users, entity.value.authorId.value) else None;
    assert owner.Some? <==> entity.value.authorId.Some?;
    if owner.None? {
      if user.value.isAdmin {
        allowed := true;
      }
    } else {
      if owner.value.id != userId {
        if user.value.isAdmin {
          allowed := true;
        }
      } else {
        allowed := true;
      }
    }
    assert allowed <==> MayEditNiko(user.value, entity.value);
    if allowed {
      var updated := entity.value.(name := req.name, description := req.description,
                                   fullDesc := req.fullDesc, isBlacklisted := req.isBlacklisted);
      if req.authorId.Some? && req.authorId.value >= 0 {
        var specified := OneOrNone(db.users, req.authorId.value);
        if specified.None? {
          return Msg("Specified author ID does not exist.", true);
        }
        updated := updated.(authorId := req.authorId);
      } else {
        updated := updated.(authorId := None);
      }
      db.nikos := db.nikos[id := updated];
      return Msg("Updated Niko.", false);
    } else {
      return Msg("Unauthorized", true);
    }
  }

  /** `delete_niko`: first removes the niko's picture (in its own transaction), then deletes
      the niko, which takes its abilities and its daily-pick entry with it, and answers with
      the deleted row; answers None for an unknown niko. */
  method DeleteNiko(db: Store, id: Id) returns (r: Option<Niko>)
    requires db.Valid()
    modifies db
    ensures db.Valid()
    ensures r.Some? <==> id in old(db.nikos)
    ensures r.None? ==> db.Tables() == old(db.Tables())
    ensures r.Some? ==> r.value == old(db.nikos)[id]
    ensures r.Some? ==> db.Tables() == DeleteNikoCascade(old(db.Tables()).(files := old(db.files) - {NikoImageName(id)}), id)
  {
    var removed := DeleteImage(db, id);
    var entity := OneOrNone(db.nikos, id);
    if entity.None? {
      return None;
    }
    var before := db.Tables();
    assert before == old(db.Tables()).(files := old(db.files) - {NikoImageName(id)});
    DeleteNikoCascadeSound(before, id);
    db.Commit(DeleteNikoCascade(before, id));
    return entity;
  }
}
