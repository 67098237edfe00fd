/** The ticket record, its two enumerations, the creation-time field constraints
    and the per-field update rules of the ticket API (ticket-api/main.py). */
module Tickets {
  import opened Wrappers

  /** Workflow state of a ticket. A plain label: any state may be set to any other. */
  datatype Status = Open | InProgress | Closed

  /** Urgency of a ticket. */
  datatype Priority = Low | Medium | High

  /** The string each status member is equal to (the enum derives from `str`). */
  function StatusValue(s: Status): string {
    match s
    case Open => "open"
    case InProgress => "in_progress"
    case Closed => "closed"
  }

  /** An opaque wall-clock reading. The store only copies it; the clock itself is supplied by the caller. */
  type Timestamp = int

  /** A stored ticket. Once in the store a ticket always has an id and a creation time. */
  datatype Ticket = Ticket(
    id: int,
    title: string,
    description: string,
    status: Status,
    priority: Priority,
    assignee: Option<string>,
    createdAt: Timestamp)

  /** The body of a create request. `priority == None` means the client omitted the field. */
  datatype TicketCreate = TicketCreate(
    title: string,
    description: string,
    priority: Option<Priority>,
    assignee: Option<string>)

  const MinTitleLength := 1
  const MaxTitleLength := 100
  const MinDescriptionLength := 5
  const MaxDescriptionLength := 500

  predicate ValidTitle(title: string) {
    MinTitleLength <= |title| <= MaxTitleLength
  }

  predicate ValidDescription(description: string) {
    MinDescriptionLength <= |description| <= MaxDescriptionLength
  }

  /** The field constraints a create request must meet before it reaches the store. */
  predicate ValidCreate(req: TicketCreate) {
    ValidTitle(req.title) && ValidDescription(req.description)
  }

  /** The ticket a create request turns into: priority falls back to `Medium`, status starts `Open`. */
  function NewTicket(id: int, req: TicketCreate, now: Timestamp): Ticket {
    var priority := if req.priority.Some? then req.priority.value else Medium;
    Ticket(id, req.title, req.description, Open, priority, req.assignee, now)
  }

  /** The optional query parameters of an update request. */
  datatype TicketPatch = TicketPatch(
    title: Option<string>,
    status: Option<Status>,
    assignee: Option<string>)

  /** Python truthiness of an optional string: present and non-empty. */
  predicate Truthy(s: Option<string>) {
    s.Some? && |s.value| > 0
  }

  /** The optional status as the string the handler tests for truthiness. */
  function StatusText(s: Option<Status>): Option<string> {
    if s.Some? then Some(StatusValue(s.value)) else None
  }

  /** Applies an update request to one ticket: `title` and `status` are replaced when truthy,
      `assignee` whenever it is present, the empty string included. Nothing is re-validated. */
  function Patch(t: Ticket, p: TicketPatch): (r: Ticket)
    ensures r.id == t.id && r.description == t.description
    ensures r.priority == t.priority && r.createdAt == t.createdAt
    ensures p.title.Some? && p.title.value != "" ==> r.title == p.title.value
    ensures p.title.None? || p.title == Some("") ==> r.title == t.title
    ensures p.status.Some? ==> r.status == p.status.value
    ensures p.status.None? ==> r.status == t.status
    ensures p.assignee.Some? ==> r.assignee == p.assignee
    ensures p.assignee.None? ==> r.assignee == t.assignee
  {
    var title := if Truthy(p.title) then p.title.value else t.title;
    var status := if Truthy(StatusText(p.status)) then p.status.value else t.status;
    var assignee := if p.assignee != None then p.assignee else t.assignee;
    t.(title := title, status := status, assignee := assignee)
  }
}
