/** The Pet schema: required `name`, `type`, `description` and `location`; the
    gender, size and status enums with their defaults; `age` at least 0; health
    flags defaulting to false; an optional owner. */
module PetModel {
  import opened Common

  const Genders: seq<string> := ["male", "female", "unknown"]
  const Sizes: seq<string> := ["small", "medium", "large", "xlarge"]
  const PetStatuses: seq<string> := ["available", "adopted", "pending", "foster"]

  datatype Health = Health(vaccinated: bool, neutered: bool, specialNeeds: bool)

  datatype Pet = Pet(
    name: string,
    kind: string,              // the `type` field
    breed: Option<string>,
    age: Option<int>,
    gender: string,
    size: string,
    description: string,
    images: seq<string>,
    status: string,
    location: string,
    healthInfo: Health,
    owner: Option<Id>)

  /** A request body for a pet: every field optional. */
  datatype HealthInput = HealthInput(vaccinated: Option<bool>, neutered: Option<bool>, specialNeeds: Option<bool>)

  datatype PetInput = PetInput(
    name: Option<string>,
    kind: Option<string>,
    breed: Option<string>,
    age: Option<int>,
    gender: Option<string>,
    size: Option<string>,
    description: Option<string>,
    images: Option<seq<string>>,
    status: Option<string>,
    location: Option<string>,
    healthInfo: Option<HealthInput>,
    owner: Option<Id>)

  /** Each health flag a body leaves out takes its default, false. */
  function CastHealth(h: HealthInput): Health {
    Health(h.vaccinated == Some(true), h.neutered == Some(true), h.specialNeeds == Some(true))
  }

  /** What the schema guarantees of every stored pet. */
  predicate PetValid(p: Pet) {
    p.name != "" && Trim(p.name) == p.name && p.kind != "" && Trim(p.kind) == p.kind &&
    (p.breed.Some? ==> Trim(p.breed.value) == p.breed.value) &&
    (p.age.Some? ==> p.age.value >= 0) &&
    p.gender in Genders && p.size in Sizes && p.status in PetStatuses &&
    p.description != "" && p.location != ""
  }

  /** The validators on the fields a body supplies (`required` refuses empty text,
      after trimming where the field trims). */
  predicate InputValid(b: PetInput) {
    (b.name.Some? ==> Trim(b.name.value) != "") &&
    (b.kind.Some? ==> Trim(b.kind.value) != "") &&
    (b.age.Some? ==> b.age.value >= 0) &&
    (b.gender.Some? ==> b.gender.value in Genders) &&
    (b.size.Some? ==> b.size.value in Sizes) &&
    (b.status.Some? ==> b.status.value in PetStatuses) &&
    (b.description.Some? ==> b.description.value != "") &&
    (b.location.Some? ==> b.location.value != "")
  }

  function TrimOpt(s: Option<string>): Option<string> {
    if s.Some? then Some(Trim(s.value)) else None
  }

  lemma TrimOptIdempotent(s: Option<string>)
    ensures s.Some? ==> Trim(Trim(s.value)) == Trim(s.value)
  {
    if s.Some? {
      TrimIdempotent(s.value);
    }
  }

  /** `new Pet({...body, owner}).save()`; None when validation throws. */
  function NewPet(b: PetInput, owner: Id): (r: Option<Pet>)
    ensures r.Some? <==>
      b.name.Some? && b.kind.Some? && b.description.Some? && b.location.Some? && InputValid(b)
    ensures r.Some? ==> PetValid(r.value) && r.value.owner == Some(owner)
    ensures r.Some? && b.gender.None? ==> r.value.gender == "unknown"
    ensures r.Some? && b.size.None? ==> r.value.size == "medium"
    ensures r.Some? && b.status.None? ==> r.value.status == "available"
    ensures r.Some? && b.healthInfo.None? ==> r.value.healthInfo == Health(false, false, false)
  {
    if !(b.name.Some? && b.kind.Some? && b.description.Some? && b.location.Some? && InputValid(b)) then None
    else
      TrimIdempotent(b.name.value);
      TrimIdempotent(b.kind.value);
      TrimOptIdempotent(b.breed);
      Some(Pet(
        Trim(b.name.value), Trim(b.kind.value), TrimOpt(b.breed), b.age,
        if b.gender.Some? then b.gender.value else "unknown",
        if b.size.Some? then b.size.value else "medium",
        b.description.value,
        if b.images.Some? then b.images.value else [],
        if b.status.Some? then b.status.value else "available",
        b.location.value,
        if b.healthInfo.Some? then CastHealth(b.healthInfo.value) else Health(false, false, false),
        Some(owner)))
  }

  /** `findByIdAndUpdate(id, body, { runValidators: true })`: the supplied fields
      replace the stored ones and nothing else changes; None when a validator throws. */
  function UpdatePet(p: Pet, b: PetInput): (r: Option<Pet>)
    ensures r.Some? <==> InputValid(b)
  {
    if !InputValid(b) then None
    else
      Some(Pet(
        if b.name.Some? then Trim(b.name.value) else p.name,
        if b.kind.Some? then Trim(b.kind.value) else p.kind,
        if b.breed.Some? then TrimOpt(b.breed) else p.breed,
        if b.age.Some? then b.age else p.age,
        if b.gender.Some? then b.gender.value else p.gender,
        if b.size.Some? then b.size.value else p.size,
        if b.description.Some? then b.description.value else p.description,
        if b.images.Some? then b.images.value else p.images,
        if b.status.Some? then b.status.value else p.status,
        if b.location.Some? then b.location.value else p.location,
        if b.healthInfo.Some? then CastHealth(b.healthInfo.value) else p.healthInfo,
        if b.owner.Some? then b.owner else p.owner))
  }

  /** A valid update keeps a valid pet valid. */
  lemma UpdatePetKeepsValid(p: Pet, b: PetInput)
    requires PetValid(p) && InputValid(b)
    ensures UpdatePet(p, b).Some? && PetValid(UpdatePet(p, b).value)
  {
    var q := UpdatePet(p, b).value;
    TrimOptIdempotent(b.name);
    TrimOptIdempotent(b.kind);
    TrimOptIdempotent(b.breed);
    assert q.name != "" && Trim(q.name) == q.name;
    assert q.kind != "" && Trim(q.kind) == q.kind;
    assert q.breed.Some? ==> Trim(q.breed.value) == q.breed.value;
    assert q.gender in Genders && q.size in Sizes && q.status in PetStatuses;
  }

  /** A body that supplies nothing leaves the pet as it was. */
  lemma UpdateWithNothingIsIdentity(p: Pet)
    ensures UpdatePet(p, PetInput(None, None, None, None, None, None, None, None, None, None, None, None)) == Some(p)
  {
  }
}
