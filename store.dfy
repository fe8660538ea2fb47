/** The MongoDB collections the server reads and writes, as one object whose
    fields the handlers reassign. */
module Store {
  import opened Common
  import opened RescueRequestModel
  import opened UserModel
  import opened NotificationModel
  import PetModel
  import RescuedPetModel

  class Database {
    var requests: map<Id, Request>
    var users: map<Id, User>
    var notifications: map<Id, Notification>
    var pets: map<Id, PetModel.Pet>
    var rescuedPets: map<Id, RescuedPetModel.RescuedPet>

    /** An empty database. */
    constructor ()
      ensures requests == map[] && users == map[] && notifications == map[]
      ensures pets == map[] && rescuedPets == map[]
    {
      requests, users, notifications := map[], map[], map[];
      pets, rescuedPets := map[], map[];
    }

    /** `user.save()` for the document under `id` (a new one when `id` is not yet
        stored): stores the saved document, or leaves the collection as it was
        when validation or a unique index refuses it. */
    method SaveUser(id: Id, u: User, newPassword: Option<string>) returns (saved: Option<User>)
      modifies this`users
      ensures saved == SaveOutcome(old(users), id, u, newPassword)
      ensures saved.Some? ==> users == old(users)[id := saved.value]
      ensures saved.None? ==> users == old(users)
    {
      saved := SaveOutcome(users, id, u, newPassword);
      if saved.Some? {
        users := users[id := saved.value];
      }
    }

    /** `findByIdAndUpdate(user, { $inc })` for each change in turn.  The first
        change MongoDB refuses throws, so the changes before it stay applied and
        those after it are never sent; `ok` says none was refused. */
    method IncrementCounters(ds: seq<Delta>) returns (ok: bool)
      modifies this`users
      ensures ok <==> IncAccepted(old(users), ds)
      ensures users == ApplyDeltas(old(users), ds[..FirstRefused(old(users), ds)])
    {
      var i := 0;
      while i < |ds|
        invariant 0 <= i <= |ds|
        invariant users == ApplyDeltas(old(users), ds[..i])
        invariant forall j :: 0 <= j < i ==> !Refuses(old(users), ds[j])
      {
        if StatsNull(users, ds[i].user) {
          return false;
        }
        ApplyDeltasSnoc(old(users), ds[..i], ds[i]);
        assert ds[..i + 1] == ds[..i] + [ds[i]];
        users := ApplyDelta(users, ds[i]);
        i := i + 1;
      }
      assert ds[..i] == ds;
      ok := true;
    }
  }
}
