/** The ability service: adding, editing and removing the abilities of a niko, each guarded
    by the same ownership rule as niko edits (admins may act on any niko, other users only on
    the nikos they own) but with its own error order and answers. */
module Abilities {
  import opened Wrappers
  import opened Schema
  import opened Listing
  import opened Database
  import opened Nikos

  datatype AbilityRequest = AbilityRequest(name: string, nikoId: Id)

  /** `insert_ability`: an unknown niko is reported first; an admin may then add to any
      niko; anyone else is told an unowned niko belongs to nobody, and is refused on a niko
      owned by someone else with an answer whose error flag is not set. */
  method InsertAbility(db: Store, req: AbilityRequest, userId: Id) returns (r: Msg)
    requires db.Valid()
    modifies db
    ensures db.Valid()
    ensures req.nikoId !in old(db.nikos) ==> r == Msg("This Niko is not found.", true)
    ensures (req.nikoId in old(db.nikos) && !(userId in old(db.users) && old(db.users)[userId].isAdmin)
             && old(db.nikos)[req.nikoId].authorId.None?) ==> r == Msg("This Niko does not belong to a user.", true)
    ensures (req.nikoId in old(db.nikos) && !(userId in old(db.users) && old(db.users)[userId].isAdmin)
             && old(db.nikos)[req.nikoId].authorId.Some? && old(db.nikos)[req.nikoId].authorId.value != userId)
            ==> r == Msg("Unauthorized.", false)
    ensures r.text == "Inserted Ability." <==>
      req.nikoId in old(db.nikos) && userId in old(db.users) && MayEditNiko(old(db.users)[userId], old(db.nikos)[req.nikoId])
    ensures r.text != "Inserted Ability." ==> db.Tables() == old(db.Tables())
    ensures r.text == "Inserted Ability." ==> !r.err
    ensures r.text == "Inserted Ability." ==> exists id :: (id !in old(db.abilities) &&
      db.Tables() == old(db.Tables()).(abilities := old(db.abilities)[id := Ability(id, req.name, req.nikoId)]))
  {
    var niko := OneOrNone(db.nikos, req.nikoId);
    var user := OneOrNone(db.users, userId);
    if niko.None? {
      return Msg("This Niko is not found.", true);
    }
    assert NikoOwnersExist(db.users, db.nikos) && PrimaryKeys(db.Tables());
    var owner := if niko.value.authorId.Some? then OneOrNone(db.users, niko.value.authorId.value) else None;
    var allowed := false;
    if user.Some? && user.value.isAdmin {
      allowed := true;
    } else {
      if owner.None? {
        return Msg("This Niko does not belong to a user.", true);
      } else {
        if owner.value.id == userId {
          allowed := true;
        }
      }
    }
    if allowed {
      var id := NextId(db.abilities);
      db.abilities := db.abilities[id := Ability(id, req.name, req.nikoId)];
      return Msg("Inserted Ability.", false);
    } else {
      return Msg("Unauthorized.", false);
    }
  }

  /** `update_ability`: None for an unknown ability, then an unknown user, then an ability
      without a niko are reported; an admin or the owner of the ability's niko may rename the
      ability and move it to any niko id, which the foreign key refuses when no such niko
      exists. */
  method UpdateAbility(db: Store, id: Id, req: AbilityRequest, userId: Id) returns (r: Outcome<Option<Msg>>)
    requires db.Valid()
    modifies db
    ensures db.Valid()
    ensures id !in old(db.abilities) ==> r == Returns(None)
    ensures id in old(db.abilities) && userId !in old(db.users) ==> r == Returns(Some(Msg("Who are you?", true)))
    ensures id in old(db.abilities) && userId in old(db.users)
            && !MayEditNiko(old(db.users)[userId], old(db.nikos)[old(db.abilities)[id].nikoId])
            ==> r == Returns(Some(Msg("Unauthorized", true)))
    ensures r.Raises? <==> (id in old(db.abilities) && userId in old(db.users)
            && MayEditNiko(old(db.users)[userId], old(db.nikos)[old(db.abilities)[id].nikoId])
            && req.nikoId !in old(db.nikos))
    ensures r.Raises? ==> r.exc == IntegrityError
    ensures r != Returns(Some(Msg("Updated Ability.", false))) ==> db.Tables() == old(db.Tables())
    ensures r == Returns(Some(Msg("Updated Ability.", false))) <==>
      id in old(db.abilities) && userId in old(db.users)
      && MayEditNiko(old(db.users)[userId], old(db.nikos)[old(db.abilities)[id].nikoId])
      && req.nikoId in old(db.nikos)
    ensures r == Returns(Some(Msg("Updated Ability.", false))) ==>
      db.Tables() == old(db.Tables()).(abilities := old(db.abilities)[id := Ability(id, req.name, req.nikoId)])
  {
    var user := OneOrNone(db.users, userId);
    var entity := OneOrNone(db.abilities, id);
    if entity.None? {
      return Returns(None);
    }
    assert AbilityNikosExist(db.nikos, db.abilities) && PrimaryKeys(db.Tables());
    var allowed := false;
    if user.None? {
      return Returns(Some(Msg("Who are you?", true)));
    } else {
      var niko := OneOrNone(db.nikos, entity.value.nikoId);
      if niko.None? {
        return Returns(Some(Msg("This Ability does not belong to a Niko :/", true)));
      }
      if user.value.isAdmin {
        allowed := true;
      } else {
        if niko.value.authorId == Some(userId) {
          allowed := true;
        }
      }
    }
    if allowed {
      if req.nikoId !in db.nikos {
        // the foreign key refuses the new niko id at commit
        return Raises(IntegrityError);
      }
      db.abilities := db.abilities[id := entity.value.(name := req.name, nikoId := req.nikoId)];
      return Returns(Some(Msg("Updated Ability.", false)));
    } else {
      return Returns(Some(Msg("Unauthorized", true)));
    }
  }

  /** What `delete_ability` answers with: the deleted row, or a refusal. */
  datatype DeleteReply = Deleted(ability: Ability) | Refused(msg: Msg)

  /** `delete_ability`: None for an unknown ability; then an unknown niko and an unknown user
      are reported; an admin, or the owner of the ability's niko, removes it. */
  method DeleteAbility(db: Store, id: Id, userId: Id) returns (r: Option<DeleteReply>)
    requires db.Valid()
    modifies db
    ensures db.Valid()
    ensures r.None? <==> id !in old(db.abilities)
    ensures id in old(db.abilities) && userId !in old(db.users) ==> r == Some(Refused(Msg("This user does not exist.", true)))
    ensures id in old(db.abilities) && userId in old(db.users)
            && !MayEditNiko(old(db.users)[userId], old(db.nikos)[old(db.abilities)[id].nikoId])
            ==> r == Some(Refused(Msg("Unauthorized.", true)))
    ensures (r.Some? && r.value.Deleted?) <==> (id in old(db.abilities) && userId in old(db.users)
            && MayEditNiko(old(db.users)[userId], old(db.nikos)[old(db.abilities)[id].nikoId]))
    ensures r.Some? && r.value.Deleted? ==> r.value.ability == old(db.abilities)[id]
    ensures r.Some? && r.value.Deleted? ==> db.Tables() == old(db.Tables()).(abilities := old(db.abilities) - {id})
    ensures !(r.Some? && r.value.Deleted?) ==> db.Tables() == old(db.Tables())
  {
    var entity := OneOrNone(db.abilities, id);
    if entity.None? {
      return None;
    }
    assert AbilityNikosExist(db.nikos, db.abilities) && NikoOwnersExist(db.users, db.nikos) && PrimaryKeys(db.Tables());
    var allowed := false;
    var niko := OneOrNone(db.nikos, entity.value.nikoId);
    var user := OneOrNone(db.users, userId);
    if niko.None? {
      return Some(Refused(Msg("This Niko does not exist.", true)));
    }
    if user.None? {
      return Some(Refused(Msg("This user does not exist.", true)));
    }
    var owner := if niko.value.authorId.Some? then OneOrNone(db.users, niko.value.authorId.value) else None;
    if owner.None? {
      if user.value.isAdmin {
        allowed := true;
      }
    } else {
      if user.value.isAdmin || owner.value.id == userId {
        allowed := true;
      }
    }
    if allowed {
      db.abilities := db.abilities - {id};
      return Some(Deleted(entity.value));
    } else {
      return Some(Refused(Msg("Unauthorized.", true)));
    }
  }
}
