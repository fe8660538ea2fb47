/** The RescueRequest schema: the status enum and its default, the required and
    trimmed text fields, the shape of an `updates` entry, and what an update body
    (`findByIdAndUpdate` with `runValidators`) does to a stored request. */
module RescueRequestModel {
  import opened Common

  datatype Status = Pending | Approved | Rejected | Assigned | Rescued | InProgress | Completed | Cancelled

  function StatusName(s: Status): string {
    match s
    case Pending => "pending"
    case Approved => "approved"
    case Rejected => "rejected"
    case Assigned => "assigned"
    case Rescued => "rescued"
    case InProgress => "in-progress"
    case Completed => "completed"
    case Cancelled => "cancelled"
  }

  /** A status string read back against the enum; anything else is refused. */
  function ParseStatus(t: string): (r: Option<Status>)
    ensures r.Some? ==> StatusName(r.value) == t
    ensures forall s :: StatusName(s) == t ==> r == Some(s)
  {
    if t == "pending" then Some(Pending)
    else if t == "approved" then Some(Approved)
    else if t == "rejected" then Some(Rejected)
    else if t == "assigned" then Some(Assigned)
    else if t == "rescued" then Some(Rescued)
    else if t == "in-progress" then Some(InProgress)
    else if t == "completed" then Some(Completed)
    else if t == "cancelled" then Some(Cancelled)
    else None
  }

  /** The status a request gets when none is given. */
  const DefaultStatus: Status := Pending

  /** Distinct statuses have distinct names, so comparing names is comparing statuses. */
  lemma StatusNamesDistinct(a: Status, b: Status)
    ensures StatusName(a) == StatusName(b) <==> a == b
  {
    if StatusName(a) == StatusName(b) {
      assert ParseStatus(StatusName(a)) == Some(a);
    }
  }

  /** One entry of the `updates` history as stored. */
  datatype UpdateEntry = UpdateEntry(message: string, timestamp: nat)

  /** An entry as a client sends it: the timestamp may be left to the schema default. */
  datatype EntryInput = EntryInput(message: string, timestamp: Option<nat>)

  function CastEntry(e: EntryInput, now: nat): UpdateEntry {
    UpdateEntry(e.message, if e.timestamp.Some? then e.timestamp.value else now)
  }

  function CastEntries(es: seq<EntryInput>, now: nat): (r: seq<UpdateEntry>)
    ensures |r| == |es|
    ensures forall i :: 0 <= i < |es| ==> r[i] == CastEntry(es[i], now)
  {
    if es == [] then [] else [CastEntry(es[0], now)] + CastEntries(es[1..], now)
  }

  /** A stored rescue request (coordinates are left out of the model). */
  datatype Request = Request(
    informer: Id,
    description: string,
    location: string,
    imageUrl: Option<string>,
    status: Status,
    assignedTo: Option<Id>,
    updates: seq<UpdateEntry>,
    created: nat)

  /** A required, trimmed text field as stored: already trimmed and not empty. */
  predicate TrimmedText(s: string) {
    s != [] && Trim(s) == s
  }

  /** Non-blank text passed through the trim setter is trimmed text. */
  lemma TrimmedTextOfTrim(s: string)
    requires Trim(s) != []
    ensures TrimmedText(Trim(s))
  {
    TrimIdempotent(s);
  }

  /** What the schema guarantees of every stored request. */
  predicate RequestValid(r: Request) {
    TrimmedText(r.description) && TrimmedText(r.location) &&
    forall i :: 0 <= i < |r.updates| ==> r.updates[i].message != ""
  }

  /** A request body for an update: every field is optional. */
  datatype Patch = Patch(
    informer: Option<Id>,
    description: Option<string>,
    location: Option<string>,
    imageUrl: Option<string>,
    status: Option<string>,
    assignedTo: Option<Id>,
    updates: Option<seq<EntryInput>>,
    created: Option<nat>)

  const EmptyPatch := Patch(None, None, None, None, None, None, None, None)

  /** The validators `runValidators` applies to the supplied fields: a required text
      field must not trim to empty, the status must be one of the enum, and every
      entry needs a message. */
  predicate PatchValid(p: Patch) {
    (p.description.Some? ==> Trim(p.description.value) != "") &&
    (p.location.Some? ==> Trim(p.location.value) != "") &&
    (p.status.Some? ==> ParseStatus(p.status.value).Some?) &&
    (p.updates.Some? ==> forall i :: 0 <= i < |p.updates.value| ==> p.updates.value[i].message != "")
  }

  /** `findByIdAndUpdate(id, body)`: each supplied field replaces the stored one
      (text through the `trim` setter, entries through their timestamp default). */
  function ApplyPatch(r: Request, p: Patch, now: nat): Request {
    Request(
      if p.informer.Some? then p.informer.value else r.informer,
      if p.description.Some? then Trim(p.description.value) else r.description,
      if p.location.Some? then Trim(p.location.value) else r.location,
      if p.imageUrl.Some? then p.imageUrl else r.imageUrl,
      if p.status.Some? && ParseStatus(p.status.value).Some? then ParseStatus(p.status.value).value else r.status,
      if p.assignedTo.Some? then p.assignedTo else r.assignedTo,
      if p.updates.Some? then CastEntries(p.updates.value, now) else r.updates,
      if p.created.Some? then p.created.value else r.created)
  }

  /** A valid update keeps a valid request valid. */
  lemma ApplyPatchKeepsValid(r: Request, p: Patch, now: nat)
    requires RequestValid(r) && PatchValid(p)
    ensures RequestValid(ApplyPatch(r, p, now))
  {
    if p.description.Some? {
      TrimIdempotent(p.description.value);
    }
    if p.location.Some? {
      TrimIdempotent(p.location.value);
    }
  }

  /** Sending the same body twice stores the same request as sending it once. */
  lemma ApplyPatchIdempotent(r: Request, p: Patch, now: nat)
    ensures ApplyPatch(ApplyPatch(r, p, now), p, now) == ApplyPatch(r, p, now)
  {
    var once := ApplyPatch(r, p, now);
    var twice := ApplyPatch(once, p, now);
    if p.description.Some? {
      TrimIdempotent(p.description.value);
    }
    if p.location.Some? {
      TrimIdempotent(p.location.value);
    }
    assert twice.description == once.description;
    assert twice.location == once.location;
    assert twice.status == once.status;
    assert twice.updates == once.updates;
  }

  /** An empty body changes nothing. */
  lemma EmptyPatchIsIdentity(r: Request, now: nat)
    ensures ApplyPatch(r, EmptyPatch, now) == r
  {
  }

  /** A supplied `updates` list replaces the whole history: a client sending one
      entry leaves exactly that entry, whatever was stored before. */
  lemma UpdatesListReplacesHistory(r: Request, p: Patch, e: EntryInput, now: nat)
    requires p.updates == Some([e])
    ensures ApplyPatch(r, p, now).updates == [CastEntry(e, now)]
  {
  }
}
