/** The logic of the volunteer dashboard page (`VolunteerDashboard.jsx`): the
    status the status dialog proposes, the button that opens it, and the update
    lists the two dialogs send and keep in the page's list of assigned requests.
    The server's reply is a parameter (`accepted`); rendering is not modelled. */
module VolunteerDashboard {
  import opened Common
  import opened RescueRequestModel
  import opened Lifecycle

  /** The `switch` of `handleOpenStatusDialog` on the request's status string. */
  function NextStatus(status: string): (r: Status)
    ensures status == "assigned" || status == "in-progress" ==> r == Rescued
    ensures status != "assigned" && status != "in-progress" ==> r == Completed
  {
    if status == "assigned" || status == "in-progress" then Rescued
    else Completed
  }

  /** `getStatusButtonText`. */
  function ButtonText(status: string): string {
    if status == "assigned" || status == "in-progress" then "Mark as Rescued"
    else if status == "rescued" then "Mark as Completed"
    else "Update Status"
  }

  /** `shouldShowStatusButton`. */
  predicate ShowButton(status: string) {
    status == "assigned" || status == "rescued" || status == "in-progress"
  }

  /** Wherever the button is shown, the status it proposes is an edge of the
      server's transition table, and its label names that status. */
  lemma ShownButtonProposesAllowedEdge(status: string)
    requires ShowButton(status)
    ensures ParseStatus(status).Some? && Allowed(ParseStatus(status).value, NextStatus(status))
    ensures ValidTransition(ParseStatus(status).value, StatusName(NextStatus(status)))
    ensures ButtonText(status) == if NextStatus(status) == Rescued then "Mark as Rescued" else "Mark as Completed"
  {
    var from := ParseStatus(status).value;
    ValidTransitionMeansAllowed(from, StatusName(NextStatus(status)));
  }

  /** Wherever the button is hidden its label is the generic one, and for every
      status of the enum the proposed `completed` would be refused by the server. */
  lemma HiddenButtonProposesNothingValid(status: string)
    requires !ShowButton(status)
    ensures ButtonText(status) == "Update Status"
    ensures NextStatus(status) == Completed
    ensures ParseStatus(status).Some? ==> !Allowed(ParseStatus(status).value, NextStatus(status))
  {
  }

  /** A request as the page holds it: its id, its status as sent by the server,
      and its update history. */
  datatype Card = Card(id: Id, status: string, updates: seq<UpdateEntry>)

  /** The request `handleAddUpdate` sends: the history followed by the note. */
  function WithNote(c: Card, note: string, now: nat): (r: Card)
    ensures r.id == c.id && r.status == c.status
    ensures |r.updates| == |c.updates| + 1
    ensures r.updates[..|c.updates|] == c.updates
    ensures r.updates[|c.updates|] == UpdateEntry(note, now)
  {
    c.(updates := c.updates + [UpdateEntry(note, now)])
  }

  /** The body `handleUpdateStatus` sends. */
  datatype StatusUpdate = StatusUpdate(status: string, updates: seq<UpdateEntry>)

  function StatusMessage(s: Status): string {
    "Status updated to " + StatusName(s)
  }

  /** The proposed status, and the history followed by one entry announcing it. */
  function StatusPayload(c: Card, now: nat): (r: StatusUpdate)
    ensures r.status == StatusName(NextStatus(c.status))
    ensures |r.updates| == |c.updates| + 1
    ensures r.updates[..|c.updates|] == c.updates
    ensures r.updates[|c.updates|] == UpdateEntry(StatusMessage(NextStatus(c.status)), now)
  {
    var s := NextStatus(c.status);
    StatusUpdate(StatusName(s), c.updates + [UpdateEntry(StatusMessage(s), now)])
  }

  /** `assignedRequests.map(req => req._id === c.id ? c : req)`. */
  function ReplaceCard(cards: seq<Card>, c: Card): (r: seq<Card>)
    ensures |r| == |cards|
    ensures forall i :: 0 <= i < |cards| ==> r[i] == if cards[i].id == c.id then c else cards[i]
  {
    if cards == [] then []
    else [if cards[0].id == c.id then c else cards[0]] + ReplaceCard(cards[1..], c)
  }

  /** `assignedRequests.map(req => req._id === id ? { ...req, ...su } : req)`. */
  function MergeStatus(cards: seq<Card>, id: Id, su: StatusUpdate): (r: seq<Card>)
    ensures |r| == |cards|
    ensures forall i :: 0 <= i < |cards| ==>
      r[i] == if cards[i].id == id then cards[i].(status := su.status, updates := su.updates) else cards[i]
  {
    if cards == [] then []
    else [if cards[0].id == id then cards[0].(status := su.status, updates := su.updates) else cards[0]] +
         MergeStatus(cards[1..], id, su)
  }

  /** `assignedRequests.filter(req => req._id !== id)`. */
  function RemoveCard(cards: seq<Card>, id: Id): (r: seq<Card>)
    ensures |r| <= |cards|
    ensures forall c :: c in r <==> c in cards && c.id != id
  {
    if cards == [] then []
    else if cards[0].id == id then RemoveCard(cards[1..], id)
    else [cards[0]] + RemoveCard(cards[1..], id)
  }

  /** Replacing and merging keep the list's ids, in order. */
  lemma ListUpdatesKeepIds(cards: seq<Card>, c: Card, id: Id, su: StatusUpdate)
    ensures forall i :: 0 <= i < |cards| ==> ReplaceCard(cards, c)[i].id == cards[i].id
    ensures forall i :: 0 <= i < |cards| ==> MergeStatus(cards, id, su)[i].id == cards[i].id
  {
  }

  /** Removing twice is removing once, and removing an id not in the list keeps it. */
  lemma {:induction false} RemoveCardFacts(cards: seq<Card>, id: Id)
    ensures RemoveCard(RemoveCard(cards, id), id) == RemoveCard(cards, id)
    ensures (forall i :: 0 <= i < |cards| ==> cards[i].id != id) ==> RemoveCard(cards, id) == cards
  {
    if cards != [] {
      RemoveCardFacts(cards[1..], id);
      if cards[0].id != id {
        assert RemoveCard(cards, id) == [cards[0]] + RemoveCard(cards[1..], id);
        assert ([cards[0]] + RemoveCard(cards[1..], id))[1..] == RemoveCard(cards[1..], id);
      }
      if forall i :: 0 <= i < |cards| ==> cards[i].id != id {
        assert forall i :: 0 <= i < |cards[1..]| ==> cards[1..][i].id == cards[i + 1].id;
        assert cards == [cards[0]] + cards[1..];
      }
    }
  }

  /** A volunteer's status change, sent for a request assigned to them whose
      button is shown, passes the server's transition check and authorisation,
      and the server then stores the history the page sent, one entry longer. */
  lemma StatusChangeAccepted(stored: Request, caller: Caller, now: nat, later: nat)
    requires caller.role == Volunteer && stored.assignedTo == Some(caller.id)
    requires ShowButton(StatusName(stored.status))
    ensures var su := StatusPayload(Card(0, StatusName(stored.status), stored.updates), now);
      ValidTransition(stored.status, su.status) && CanUpdate(caller, stored) &&
      ApplyPatch(stored, Patch(None, None, None, None, Some(su.status), None,
                               Some(AsInputs(su.updates)), None), later).updates == su.updates
  {
    var name := StatusName(stored.status);
    ShownButtonProposesAllowedEdge(name);
    assert ParseStatus(name) == Some(stored.status);
    var su := StatusPayload(Card(0, name, stored.updates), now);
    AsInputsRoundTrip(su.updates, later);
  }

  /** The entries a page sends back: each carries its stored timestamp. */
  function AsInputs(es: seq<UpdateEntry>): (r: seq<EntryInput>)
    ensures |r| == |es|
    ensures forall i :: 0 <= i < |es| ==> r[i] == EntryInput(es[i].message, Some(es[i].timestamp))
  {
    if es == [] then [] else [EntryInput(es[0].message, Some(es[0].timestamp))] + AsInputs(es[1..])
  }

  /** Entries sent with their timestamps are stored as they were. */
  lemma AsInputsRoundTrip(es: seq<UpdateEntry>, now: nat)
    ensures CastEntries(AsInputs(es), now) == es
  {
    var r := CastEntries(AsInputs(es), now);
    assert forall i :: 0 <= i < |es| ==> r[i] == es[i];
  }

  /** The page's list of requests assigned to the volunteer. */
  class Dashboard {
    var cards: seq<Card>

    constructor (cards: seq<Card>)
      ensures this.cards == cards
    {
      this.cards := cards;
    }

    /** `handleAddUpdate`: a note blank after trimming is refused before anything
        is sent; otherwise the request with the note appended is sent, and once the
        server accepts it, it replaces the request in the list. */
    method AddUpdate(selected: Card, note: string, now: nat, accepted: bool) returns (sent: Option<Card>)
      modifies this
      ensures Trim(note) == "" ==> sent.None?
      ensures Trim(note) != "" ==> sent == Some(WithNote(selected, note, now))
      ensures sent.Some? && accepted ==> cards == ReplaceCard(old(cards), sent.value)
      ensures sent.None? || !accepted ==> cards == old(cards)
    {
      if Trim(note) == "" {
        return None;
      }
      var updated := WithNote(selected, note, now);
      sent := Some(updated);
      if accepted {
        cards := ReplaceCard(cards, updated);
      }
    }

    /** `handleUpdateStatus`: sends the proposed status with the announcing entry;
        once the server accepts, a completed request leaves the list and any other
        is merged with what was sent. */
    method UpdateStatus(selected: Card, now: nat, accepted: bool) returns (sent: StatusUpdate)
      modifies this
      ensures sent == StatusPayload(selected, now)
      ensures !accepted ==> cards == old(cards)
      ensures accepted && NextStatus(selected.status) == Completed ==>
        cards == RemoveCard(old(cards), selected.id)
      ensures accepted && NextStatus(selected.status) != Completed ==>
        cards == MergeStatus(old(cards), selected.id, sent)
    {
      sent := StatusPayload(selected, now);
      if accepted {
        if NextStatus(selected.status) == Completed {
          cards := RemoveCard(cards, selected.id);
        } else {
          cards := MergeStatus(cards, selected.id, sent);
        }
      }
    }
  }

  /** A blank note is exactly one made only of white space. */
  lemma BlankNoteRefused(note: string)
    ensures Trim(note) == "" <==> IsBlank(note)
  {
    TrimSpec(note);
  }
}
