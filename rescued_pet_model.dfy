/** The RescuedPet schema: required `name`, `type`, `rescueDate`, `rescueLocation`
    and `rescuedBy`; the gender, condition, treatment and adoption enums with
    their defaults; `age` at least 0; `medicalNotes` defaulting to empty text. */
module RescuedPetModel {
  import opened Common

  const Genders: seq<string> := ["male", "female", "unknown"]
  const Conditions: seq<string> := ["critical", "poor", "fair", "good", "excellent"]
  const TreatmentStatuses: seq<string> := ["pending", "in-treatment", "recovered", "deceased"]
  const AdoptionStatuses: seq<string> := ["not-ready", "ready", "pending", "adopted"]

  datatype RescuedPet = RescuedPet(
    name: string,
    kind: string,              // the `type` field
    breed: Option<string>,
    age: Option<int>,
    gender: string,
    rescueDate: nat,
    rescueLocation: string,
    condition: string,
    medicalNotes: string,
    treatmentStatus: string,
    images: seq<string>,
    rescuedBy: Id,
    currentCaretaker: Option<Id>,
    adoptionStatus: string)

  /** A request body for a rescued pet: every field optional. */
  datatype RescuedPetInput = RescuedPetInput(
    name: Option<string>,
    kind: Option<string>,
    breed: Option<string>,
    age: Option<int>,
    gender: Option<string>,
    rescueDate: Option<nat>,
    rescueLocation: Option<string>,
    condition: Option<string>,
    medicalNotes: Option<string>,
    treatmentStatus: Option<string>,
    images: Option<seq<string>>,
    rescuedBy: Option<Id>,
    currentCaretaker: Option<Id>,
    adoptionStatus: Option<string>)

  /** What the schema guarantees of every stored rescued pet. */
  predicate RescuedPetValid(p: RescuedPet) {
    p.name != "" && Trim(p.name) == p.name && p.kind != "" && Trim(p.kind) == p.kind &&
    (p.breed.Some? ==> Trim(p.breed.value) == p.breed.value) &&
    (p.age.Some? ==> p.age.value >= 0) &&
    p.gender in Genders && p.condition in Conditions &&
    p.treatmentStatus in TreatmentStatuses && p.adoptionStatus in AdoptionStatuses &&
    p.rescueLocation != ""
  }

  /** The validators on the fields a body supplies. */
  predicate InputValid(b: RescuedPetInput) {
    (b.name.Some? ==> Trim(b.name.value) != "") &&
    (b.kind.Some? ==> Trim(b.kind.value) != "") &&
    (b.age.Some? ==> b.age.value >= 0) &&
    (b.gender.Some? ==> b.gender.value in Genders) &&
    (b.rescueLocation.Some? ==> b.rescueLocation.value != "") &&
    (b.condition.Some? ==> b.condition.value in Conditions) &&
    (b.treatmentStatus.Some? ==> b.treatmentStatus.value in TreatmentStatuses) &&
    (b.adoptionStatus.Some? ==> b.adoptionStatus.value in AdoptionStatuses)
  }

  function TrimOpt(s: Option<string>): Option<string> {
    if s.Some? then Some(Trim(s.value)) else None
  }

  lemma TrimOptIdempotent(s: Option<string>)
    ensures s.Some? ==> Trim(Trim(s.value)) == Trim(s.value)
  {
    if s.Some? {
      TrimIdempotent(s.value);
    }
  }

  /** `new RescuedPet({...fields, rescuedBy: req.user._id}).save()`: a `rescuedBy` in
      the body is ignored, the caller is recorded instead.  None when validation throws. */
  function NewRescuedPet(b: RescuedPetInput, rescuer: Id, now: nat): (r: Option<RescuedPet>)
    ensures r.Some? <==> b.name.Some? && b.kind.Some? && b.rescueLocation.Some? && InputValid(b)
    ensures r.Some? ==> RescuedPetValid(r.value) && r.value.rescuedBy == rescuer
    ensures r.Some? && b.gender.None? ==> r.value.gender == "unknown"
    ensures r.Some? && b.condition.None? ==> r.value.condition == "fair"
    ensures r.Some? && b.treatmentStatus.None? ==> r.value.treatmentStatus == "pending"
    ensures r.Some? && b.adoptionStatus.None? ==> r.value.adoptionStatus == "not-ready"
    ensures r.Some? && b.rescueDate.None? ==> r.value.rescueDate == now
    ensures r.Some? && b.medicalNotes.None? ==> r.value.medicalNotes == ""
  {
    if !(b.name.Some? && b.kind.Some? && b.rescueLocation.Some? && InputValid(b)) then None
    else
      TrimOptIdempotent(b.name);
      TrimOptIdempotent(b.kind);
      TrimOptIdempotent(b.breed);
      Some(RescuedPet(
        Trim(b.name.value), Trim(b.kind.value), TrimOpt(b.breed), b.age,
        if b.gender.Some? then b.gender.value else "unknown",
        if b.rescueDate.Some? then b.rescueDate.value else now,
        b.rescueLocation.value,
        if b.condition.Some? then b.condition.value else "fair",
        if b.medicalNotes.Some? then b.medicalNotes.value else "",
        if b.treatmentStatus.Some? then b.treatmentStatus.value else "pending",
        if b.images.Some? then b.images.value else [],
        rescuer,
        b.currentCaretaker,
        if b.adoptionStatus.Some? then b.adoptionStatus.value else "not-ready"))
  }

  /** `findByIdAndUpdate(id, body, { runValidators: true })`: the supplied fields
      replace the stored ones; None when a validator throws. */
  function UpdateRescuedPet(p: RescuedPet, b: RescuedPetInput): (r: Option<RescuedPet>)
    ensures r.Some? <==> InputValid(b)
  {
    if !InputValid(b) then None
    else
      Some(RescuedPet(
        if b.name.Some? then Trim(b.name.value) else p.name,
        if b.kind.Some? then Trim(b.kind.value) else p.kind,
        if b.breed.Some? then TrimOpt(b.breed) else p.breed,
        if b.age.Some? then b.age else p.age,
        if b.gender.Some? then b.gender.value else p.gender,
        if b.rescueDate.Some? then b.rescueDate.value else p.rescueDate,
        if b.rescueLocation.Some? then b.rescueLocation.value else p.rescueLocation,
        if b.condition.Some? then b.condition.value else p.condition,
        if b.medicalNotes.Some? then b.medicalNotes.value else p.medicalNotes,
        if b.treatmentStatus.Some? then b.treatmentStatus.value else p.treatmentStatus,
        if b.images.Some? then b.images.value else p.images,
        if b.rescuedBy.Some? then b.rescuedBy.value else p.rescuedBy,
        if b.currentCaretaker.Some? then b.currentCaretaker else p.currentCaretaker,
        if b.adoptionStatus.Some? then b.adoptionStatus.value else p.adoptionStatus))
  }

  /** A valid update keeps a valid record valid. */
  lemma UpdateRescuedPetKeepsValid(p: RescuedPet, b: RescuedPetInput)
    requires RescuedPetValid(p) && InputValid(b)
    ensures UpdateRescuedPet(p, b).Some? && RescuedPetValid(UpdateRescuedPet(p, b).value)
  {
    var q := UpdateRescuedPet(p, b).value;
    TrimOptIdempotent(b.name);
    TrimOptIdempotent(b.kind);
    TrimOptIdempotent(b.breed);
    assert q.name != "" && Trim(q.name) == q.name;
    assert q.kind != "" && Trim(q.kind) == q.kind;
    assert q.breed.Some? ==> Trim(q.breed.value) == q.breed.value;
    assert q.gender in Genders && q.condition in Conditions;
    assert q.treatmentStatus in TreatmentStatuses && q.adoptionStatus in AdoptionStatuses;
  }
}
