/** The in-memory ticket store of ticket-api/main.py: an ordered list of tickets plus
    the counter that hands out the next id, and the five operations on them.
    Every operation is a pure function from the old store to its result. */
module TicketStore {
  import opened Wrappers
  import opened Tickets

  /** The only failure the store reports: no stored ticket has the requested id. */
  datatype Error = NotFound

  /** `tickets` in insertion order, and `nextId`, the id the next create will assign. */
  datatype Store = Store(tickets: seq<Ticket>, nextId: int)

  /** True when some stored ticket has the given id. */
  predicate HasId(ts: seq<Ticket>, id: int) {
    exists i :: 0 <= i < |ts| && ts[i].id == id
  }

  /** The invariant the operations keep: the counter starts at 1, every stored id lies
      in [1, nextId), ids increase strictly along the list (so they are unique and the list
      is in creation order), and every description meets the creation bounds. */
  predicate Good(s: Store) {
    && 1 <= s.nextId
    && (forall i :: 0 <= i < |s.tickets| ==> 1 <= s.tickets[i].id < s.nextId)
    && (forall i, j :: 0 <= i < j < |s.tickets| ==> s.tickets[i].id < s.tickets[j].id)
    && (forall i :: 0 <= i < |s.tickets| ==> ValidDescription(s.tickets[i].description))
  }

  /** The state at process start: no tickets, counter at 1. */
  function Init(): (s: Store)
    ensures Good(s)
    ensures |s.tickets| == 0 && s.nextId == 1
  {
    Store([], 1)
  }

  /** Position of the first ticket with the given id: the linear scan of
      ticket-api/main.py:76, which stops at the first ticket whose id matches. */
  function IndexOf(ts: seq<Ticket>, id: int): (r: Option<nat>)
    ensures r.None? <==> !HasId(ts, id)
    ensures r.Some? ==> r.value < |ts| && ts[r.value].id == id
    ensures r.Some? ==> forall j :: 0 <= j < r.value ==> ts[j].id != id
    decreases |ts|
  {
    if |ts| == 0 then None
    else if ts[0].id == id then Some(0)
    else
      match IndexOf(ts[1..], id)
      case None => None
      case Some(k) => Some(k + 1)
  }

  /** The scan as a loop; it computes exactly the position `IndexOf` specifies. */
  method FindTicket(ts: seq<Ticket>, id: int) returns (r: Option<nat>)
    ensures r == IndexOf(ts, id)
  {
    var i := 0;
    while i < |ts|
      invariant 0 <= i <= |ts|
      invariant forall j :: 0 <= j < i ==> ts[j].id != id
    {
      if ts[i].id == id {
        return Some(i);
      }
      i := i + 1;
    }
    return None;
  }

  /** The list comprehension keeping every ticket whose id differs from `id`. */
  function Remove(ts: seq<Ticket>, id: int): (r: seq<Ticket>)
    ensures |r| <= |ts|
    ensures forall t :: t in r <==> t in ts && t.id != id
    ensures HasId(ts, id) ==> |r| < |ts|
    decreases |ts|
  {
    if |ts| == 0 then []
    else if ts[0].id == id then Remove(ts[1..], id)
    else [ts[0]] + Remove(ts[1..], id)
  }

  /** Create: the new ticket takes the current counter as its id, is appended at the end,
      and the counter advances by one. The request must already meet the field constraints. */
  function Create(s: Store, req: TicketCreate, now: Timestamp): (r: (Store, Ticket))
    requires ValidCreate(req)
    ensures r.1.id == s.nextId && r.0.nextId == s.nextId + 1
    ensures r.0.tickets == s.tickets + [r.1]
    ensures r.1.status == Open && r.1.createdAt == now
    ensures r.1.title == req.title && r.1.description == req.description
    ensures r.1.assignee == req.assignee
    ensures req.priority.None? ==> r.1.priority == Medium
    ensures req.priority.Some? ==> r.1.priority == req.priority.value
    ensures ValidTitle(r.1.title) && ValidDescription(r.1.description)
  {
    var t := NewTicket(s.nextId, req, now);
    (Store(s.tickets + [t], s.nextId + 1), t)
  }

  /** List: every stored ticket, in insertion order. Under the invariant that order is
      creation order, so ids increase along the result. */
  function List(s: Store): (r: seq<Ticket>)
    ensures |r| == |s.tickets|
    ensures forall t :: t in r <==> t in s.tickets
    ensures Good(s) ==> forall i, j :: 0 <= i < j < |r| ==> r[i].id < r[j].id
  {
    s.tickets
  }

  /** Get: the first stored ticket with the given id, or NotFound. */
  function Get(s: Store, id: int): (r: Result<Ticket, Error>)
    ensures r.Err? <==> !HasId(s.tickets, id)
    ensures r.Err? ==> r.error == NotFound
    ensures r.Ok? ==> r.value in s.tickets && r.value.id == id
    ensures r.Ok? ==>
      exists k :: 0 <= k < |s.tickets| && s.tickets[k] == r.value
        && forall j :: 0 <= j < k ==> s.tickets[j].id != id
  {
    match IndexOf(s.tickets, id)
    case None => Err(NotFound)
    case Some(k) => Ok(s.tickets[k])
  }

  /** Update: patches the first ticket with the given id in place and returns it.
      Its position, every other ticket and the counter stay as they were. */
  function Update(s: Store, id: int, p: TicketPatch): (r: Result<(Store, Ticket), Error>)
    ensures r.Err? <==> !HasId(s.tickets, id)
    ensures r.Err? ==> r.error == NotFound
    ensures r.Ok? ==> r.value.1.id == id && r.value.0.nextId == s.nextId
    ensures r.Ok? ==> |r.value.0.tickets| == |s.tickets|
    ensures r.Ok? ==>
      exists k :: 0 <= k < |s.tickets| && s.tickets[k].id == id
        && r.value.1 == Patch(s.tickets[k], p)
        && (forall j :: 0 <= j < k ==> s.tickets[j].id != id)
        && r.value.0.tickets[k] == r.value.1
        && forall j :: 0 <= j < |s.tickets| && j != k ==> r.value.0.tickets[j] == s.tickets[j]
  {
    match IndexOf(s.tickets, id)
    case None => Err(NotFound)
    case Some(k) =>
      var t := Patch(s.tickets[k], p);
      Ok((Store(s.tickets[k := t], s.nextId), t))
  }

  /** Delete: fails with NotFound when no ticket has the id, otherwise drops every ticket
      with that id. The counter is untouched, so a deleted id is never handed out again. */
  function Delete(s: Store, id: int): (r: Result<Store, Error>)
    ensures r.Err? <==> !HasId(s.tickets, id)
    ensures r.Err? ==> r.error == NotFound
    ensures r.Ok? ==> r.value.nextId == s.nextId
    ensures r.Ok? ==> !HasId(r.value.tickets, id) && |r.value.tickets| < |s.tickets|
    ensures r.Ok? ==> forall t :: t in r.value.tickets <==> t in s.tickets && t.id != id
  {
    match IndexOf(s.tickets, id)
    case None => Err(NotFound)
    case Some(_) => Ok(Store(Remove(s.tickets, id), s.nextId))
  }
}
