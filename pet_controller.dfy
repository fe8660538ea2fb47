/** The handlers of `petController.js`: the filtered pet list, creating a pet
    owned by the caller, and the owner-or-admin rule for updating and deleting. */
module PetController {
  import opened Common
  import opened PetModel
  import opened Store

  /** The query of `getPets`; an empty parameter adds no condition. */
  datatype PetQuery = PetQuery(kind: string, status: string, location: string)

  /** `needle` occurs in `text` at position `i`, ignoring ASCII case. */
  predicate MatchesAt(text: string, needle: string, i: int) {
    0 <= i && i + |needle| <= |text| && Lower(text)[i..i + |needle|] == Lower(needle)
  }

  /** `{ $regex: needle, $options: 'i' }` for a needle without regular-expression
      metacharacters: it occurs somewhere in `text`, ignoring ASCII case. */
  predicate ContainsIgnoringCase(text: string, needle: string) {
    exists i :: 0 <= i <= |text| && MatchesAt(text, needle, i)
  }

  /** The case of the needle does not matter. */
  lemma NeedleCaseIgnored(text: string, needle: string)
    ensures ContainsIgnoringCase(text, Lower(needle)) <==> ContainsIgnoringCase(text, needle)
  {
    LowerIdempotent(needle);
    var n := |needle|;
    assert |Lower(needle)| == n;
    forall i | 0 <= i <= |text|
      ensures MatchesAt(text, Lower(needle), i) <==> MatchesAt(text, needle, i)
    {
    }
  }

  /** Every text contains itself, and a match fits inside the text. */
  lemma ContainsSelf(text: string, needle: string)
    ensures ContainsIgnoringCase(text, text)
    ensures ContainsIgnoringCase(text, needle) ==> |needle| <= |text|
  {
    assert Lower(text)[0..|text|] == Lower(text);
    assert MatchesAt(text, text, 0);
  }

  /** The filter `getPets` builds; the `type` value passes through the field's
      trimming setter, the status is compared as sent. */
  predicate PetSelected(p: Pet, q: PetQuery) {
    (q.kind != "" ==> p.kind == Trim(q.kind)) &&
    (q.status != "" ==> p.status == q.status) &&
    (q.location != "" ==> ContainsIgnoringCase(p.location, q.location))
  }

  /** `getPets`: exactly the pets the filter selects. */
  method GetPets(db: Database, q: PetQuery) returns (r: set<Id>)
    ensures forall id :: id in r <==> id in db.pets && PetSelected(db.pets[id], q)
    ensures q == PetQuery("", "", "") ==> r == db.pets.Keys
  {
    r := set id | id in db.pets && PetSelected(db.pets[id], q);
  }

  /** A location typed in any case finds the pets a lower-case one finds. */
  lemma LocationFilterIgnoresCase(p: Pet, kind: string, status: string, location: string)
    ensures PetSelected(p, PetQuery(kind, status, location)) <==> PetSelected(p, PetQuery(kind, status, Lower(location)))
  {
    NeedleCaseIgnored(p.location, location);
    assert |Lower(location)| == |location|;
  }

  /** `createPet`: the listed body fields and the caller as owner (an `owner` in
      the body is not read); a pet the schema refuses gives a 500. */
  method CreatePet(db: Database, caller: Caller, b: PetInput) returns (reply: Reply<Id>)
    modifies db`pets
    ensures reply.Created? <==> NewPet(b, caller.id).Some?
    ensures !reply.Created? ==> reply.ServerError? && db.pets == old(db.pets)
    ensures reply.Created? ==>
      reply.value !in old(db.pets) && NewPet(b, caller.id).Some? &&
      db.pets == old(db.pets)[reply.value := NewPet(b, caller.id).value] &&
      db.pets[reply.value].owner == Some(caller.id)
  {
    var pet := NewPet(b, caller.id);
    if pet.None? {
      return ServerError("Pet validation failed");
    }
    var id := FreshId(db.pets.Keys);
    db.pets := db.pets[id := pet.value];
    reply := Created(id);
  }

  /** `pet.owner.toString() !== req.user._id.toString() && req.user.role !== 'admin'`
      when the pet has an owner; without one `toString` throws before the role is
      looked at. */
  predicate OwnerOrAdmin(p: Pet, caller: Caller)
    requires p.owner.Some?
  {
    p.owner.value == caller.id || caller.role == Admin
  }

  /** `updatePet`: 404, then the owner-or-admin rule, then the body applied with
      validators. */
  method UpdatePet(db: Database, caller: Caller, id: Id, b: PetInput) returns (reply: Reply<Pet>)
    modifies db`pets
    ensures id !in old(db.pets) ==> reply == NotFound("Pet not found")
    ensures id in old(db.pets) && old(db.pets)[id].owner.None? ==> reply.ServerError?
    ensures id in old(db.pets) && old(db.pets)[id].owner.Some? && !OwnerOrAdmin(old(db.pets)[id], caller) ==>
      reply == Forbidden("Not authorized to update this pet")
    ensures id in old(db.pets) && old(db.pets)[id].owner.Some? && OwnerOrAdmin(old(db.pets)[id], caller) ==>
      (reply.Ok? <==> InputValid(b)) && (!reply.Ok? ==> reply.ServerError?)
    ensures !reply.Ok? ==> db.pets == old(db.pets)
    ensures reply.Ok? ==>
      id in old(db.pets) && PetModel.UpdatePet(old(db.pets)[id], b).Some? &&
      reply.value == PetModel.UpdatePet(old(db.pets)[id], b).value &&
      db.pets == old(db.pets)[id := reply.value]
  {
    if id !in db.pets {
      return NotFound("Pet not found");
    }
    var pet := db.pets[id];
    if pet.owner.None? {
      return ServerError("Cannot read properties of undefined (reading 'toString')");
    }
    if !OwnerOrAdmin(pet, caller) {
      return Forbidden("Not authorized to update this pet");
    }
    var updated := PetModel.UpdatePet(pet, b);
    if updated.None? {
      return ServerError("Validation failed");
    }
    db.pets := db.pets[id := updated.value];
    reply := Ok(updated.value);
  }

  /** The whole body is applied, `owner` included: an owner who sends another
      user's id gives the pet away and may then no longer change it. */
  lemma UpdateCanTransferOwnership(p: Pet, b: PetInput, caller: Caller, other: Id)
    requires InputValid(b) && b.owner == Some(other) && other != caller.id && caller.role != Admin
    ensures PetModel.UpdatePet(p, b).Some? && PetModel.UpdatePet(p, b).value.owner == Some(other)
    ensures !OwnerOrAdmin(PetModel.UpdatePet(p, b).value, caller)
  {
  }

  /** `deletePet`: 404, then the owner-or-admin rule, then removal. */
  method DeletePet(db: Database, caller: Caller, id: Id) returns (reply: Reply<string>)
    modifies db`pets
    ensures id !in old(db.pets) ==> reply == NotFound("Pet not found") && db.pets == old(db.pets)
    ensures id in old(db.pets) && old(db.pets)[id].owner.None? ==> reply.ServerError? && db.pets == old(db.pets)
    ensures id in old(db.pets) && old(db.pets)[id].owner.Some? && !OwnerOrAdmin(old(db.pets)[id], caller) ==>
      reply == Forbidden("Not authorized to delete this pet") && db.pets == old(db.pets)
    ensures id in old(db.pets) && old(db.pets)[id].owner.Some? && OwnerOrAdmin(old(db.pets)[id], caller) ==>
      reply == Ok("Pet removed") && db.pets == old(db.pets) - {id}
  {
    if id !in db.pets {
      return NotFound("Pet not found");
    }
    var pet := db.pets[id];
    if pet.owner.None? {
      return ServerError("Cannot read properties of undefined (reading 'toString')");
    }
    if !OwnerOrAdmin(pet, caller) {
      return Forbidden("Not authorized to delete this pet");
    }
    db.pets := db.pets - {id};
    reply := Ok("Pet removed");
  }
}
