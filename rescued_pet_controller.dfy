/** The handlers of `rescuedPetController.js`: the filtered list, recording a
    rescue by the caller, and who may update and delete a record. */
module RescuedPetController {
  import opened Common
  import opened RescuedPetModel
  import opened Store

  /** The query of `getRescuedPets`; an empty parameter adds no condition. */
  datatype RescuedPetQuery = RescuedPetQuery(kind: string, condition: string, treatmentStatus: string, adoptionStatus: string)

  /** The filter `getRescuedPets` builds; the `type` value passes through the
      field's trimming setter. */
  predicate RescuedPetSelected(p: RescuedPet, q: RescuedPetQuery) {
    (q.kind != "" ==> p.kind == Trim(q.kind)) &&
    (q.condition != "" ==> p.condition == q.condition) &&
    (q.treatmentStatus != "" ==> p.treatmentStatus == q.treatmentStatus) &&
    (q.adoptionStatus != "" ==> p.adoptionStatus == q.adoptionStatus)
  }

  /** `getRescuedPets`: exactly the records the filter selects. */
  method GetRescuedPets(db: Database, q: RescuedPetQuery) returns (r: set<Id>)
    ensures forall id :: id in r <==> id in db.rescuedPets && RescuedPetSelected(db.rescuedPets[id], q)
    ensures q == RescuedPetQuery("", "", "", "") ==> r == db.rescuedPets.Keys
  {
    r := set id | id in db.rescuedPets && RescuedPetSelected(db.rescuedPets[id], q);
  }

  /** A condition outside the enum selects nothing from valid records. */
  lemma UnknownConditionSelectsNothing(p: RescuedPet, q: RescuedPetQuery)
    requires RescuedPetValid(p) && q.condition != "" && q.condition !in Conditions
    ensures !RescuedPetSelected(p, q)
  {
  }

  /** `createRescuedPet`: the listed body fields, with the caller recorded as the
      rescuer (a `rescuedBy` in the body is not read); a refused record gives a 500. */
  method CreateRescuedPet(db: Database, caller: Caller, b: RescuedPetInput, now: nat) returns (reply: Reply<Id>)
    modifies db`rescuedPets
    ensures reply.Created? <==> NewRescuedPet(b, caller.id, now).Some?
    ensures !reply.Created? ==> reply.ServerError? && db.rescuedPets == old(db.rescuedPets)
    ensures reply.Created? ==>
      reply.value !in old(db.rescuedPets) && NewRescuedPet(b, caller.id, now).Some? &&
      db.rescuedPets == old(db.rescuedPets)[reply.value := NewRescuedPet(b, caller.id, now).value] &&
      db.rescuedPets[reply.value].rescuedBy == caller.id
  {
    var pet := NewRescuedPet(b, caller.id, now);
    if pet.None? {
      return ServerError("RescuedPet validation failed");
    }
    var id := FreshId(db.rescuedPets.Keys);
    db.rescuedPets := db.rescuedPets[id := pet.value];
    reply := Created(id);
  }

  /** `isAuthorized` of `updateRescuedPet`. */
  predicate MayUpdate(p: RescuedPet, caller: Caller) {
    caller.role == Admin || caller.role == TeamLeader || caller.role == RequestChecker || p.rescuedBy == caller.id
  }

  /** Deleting is for admins and team leaders only. */
  predicate MayDelete(caller: Caller) {
    caller.role == Admin || caller.role == TeamLeader
  }

  /** Whoever may delete a record may update it, and the rescuer may always
      update their own record, while a volunteer or informer who rescued it may
      not delete it. */
  lemma DeleteRightsWithinUpdateRights(p: RescuedPet, caller: Caller)
    ensures MayDelete(caller) ==> MayUpdate(p, caller)
    ensures p.rescuedBy == caller.id ==> MayUpdate(p, caller)
    ensures (caller.role == Volunteer || caller.role == Informer) ==> !MayDelete(caller)
  {
  }

  /** `updateRescuedPet`: 404, then the authorisation rule, then the body applied
      with validators. */
  method UpdateRescuedPet(db: Database, caller: Caller, id: Id, b: RescuedPetInput) returns (reply: Reply<RescuedPet>)
    modifies db`rescuedPets
    ensures id !in old(db.rescuedPets) ==> reply == NotFound("Rescued pet not found")
    ensures id in old(db.rescuedPets) && !MayUpdate(old(db.rescuedPets)[id], caller) ==>
      reply == Forbidden("Not authorized to update this record")
    ensures id in old(db.rescuedPets) && MayUpdate(old(db.rescuedPets)[id], caller) ==>
      (reply.Ok? <==> InputValid(b)) && (!reply.Ok? ==> reply.ServerError?)
    ensures !reply.Ok? ==> db.rescuedPets == old(db.rescuedPets)
    ensures reply.Ok? ==>
      id in old(db.rescuedPets) && RescuedPetModel.UpdateRescuedPet(old(db.rescuedPets)[id], b).Some? &&
      reply.value == RescuedPetModel.UpdateRescuedPet(old(db.rescuedPets)[id], b).value &&
      db.rescuedPets == old(db.rescuedPets)[id := reply.value]
  {
    if id !in db.rescuedPets {
      return NotFound("Rescued pet not found");
    }
    var pet := db.rescuedPets[id];
    if !MayUpdate(pet, caller) {
      return Forbidden("Not authorized to update this record");
    }
    var updated := RescuedPetModel.UpdateRescuedPet(pet, b);
    if updated.None? {
      return ServerError("Validation failed");
    }
    db.rescuedPets := db.rescuedPets[id := updated.value];
    reply := Ok(updated.value);
  }

  /** `deleteRescuedPet`: 404, then admins and team leaders only, then removal. */
  method DeleteRescuedPet(db: Database, caller: Caller, id: Id) returns (reply: Reply<string>)
    modifies db`rescuedPets
    ensures id !in old(db.rescuedPets) ==>
      reply == NotFound("Rescued pet not found") && db.rescuedPets == old(db.rescuedPets)
    ensures id in old(db.rescuedPets) && !MayDelete(caller) ==>
      reply == Forbidden("Not authorized to delete this record") && db.rescuedPets == old(db.rescuedPets)
    ensures id in old(db.rescuedPets) && MayDelete(caller) ==>
      reply == Ok("Rescued pet record removed") && db.rescuedPets == old(db.rescuedPets) - {id}
  {
    if id !in db.rescuedPets {
      return NotFound("Rescued pet not found");
    }
    if !MayDelete(caller) {
      return Forbidden("Not authorized to delete this record");
    }
    db.rescuedPets := db.rescuedPets - {id};
    reply := Ok("Rescued pet record removed");
  }
}
