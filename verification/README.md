# Ticket store model

A Dafny model of the in-memory ticket store behind the ticket API
(`ticket-api/main.py`). The store is a list of tickets kept in insertion order
(`tickets_db`) and a counter holding the id the next ticket receives (`next_id`,
starting at 1). Five operations act on it:

- **create** assigns the counter as the new ticket's id, appends the ticket, and
  advances the counter.
- **list** returns the list.
- **get** scans for the first ticket with the id.
- **update** patches that ticket in place.
- **delete** filters out the tickets with that id.

Here the store is the immutable value `TicketStore.Store(tickets, nextId)`. Each
operation is a pure function returning the new store, or `Err(NotFound)` where the
handler raises its 404.

Files and modules:

- `wrappers.dfy` (`Wrappers`): `Option` and `Result`.
- `tickets.dfy` (`Tickets`): the `Status` and `Priority` enumerations, the
  `Ticket` record, the create request and its length bounds (`ValidCreate`), and
  the per-field update rules (`Patch`).
- `store.dfy` (`TicketStore`): the store, its invariant `Good`, and the operations
  `Create`, `List`, `Get`, `Update` and `Delete`. It also holds the lookup
  `IndexOf`, the same scan written as a loop (`FindTicket`), and the filter
  `Remove`.
- `store_lemmas.dfy` (`StoreLemmas`): how the operations relate to each other and
  to the invariant.
- `history.dfy` (`History`): arbitrary sequences of requests. Ids are issued
  consecutively from 1 even when deletes come in between. Listing after a series
  of creates shows the tickets in creation order.

The invariant `Good` says four things:

- the counter is at least 1;
- every stored id lies in `[1, nextId)`;
- ids strictly increase along the list, so they are unique and the list is in
  creation order;
- every description meets the creation bounds of 5 to 500 characters.

Titles are deliberately not part of the invariant, because update does not check
them again.

Two details of the code are modelled as written:

- `status` (main.py:94) is tested for truthiness. Every member's value is a
  non-empty string, so this equals presence, and `Tickets.Patch` states the result
  in terms of presence.
- delete (main.py:110) keeps every ticket whose id differs, so it removes every
  match. `TicketStore.Delete` models that filter. Under `Good` exactly one ticket
  goes (`StoreLemmas.DeleteRemovesExactlyOne`).

## Model

| member | source | states |
|---|---|---|
| Tickets.Patch | ticket-api/main.py:91-97 | title is replaced only by a non-empty string (None or "" keep the old title); status is replaced exactly when one is supplied; assignee is replaced whenever it is not None, so "" clears it; id, description, priority and created_at never change |
| TicketStore.Init | ticket-api/main.py:42-43 | the store starts empty with the counter at 1, and that state satisfies the invariant |
| TicketStore.IndexOf | ticket-api/main.py:76 | the scan yields no position exactly when no ticket has the id; otherwise it yields the position of the first ticket with that id |
| TicketStore.FindTicket | ticket-api/main.py:76 | the loop form of the scan returns exactly the position `IndexOf` specifies |
| TicketStore.Remove | ticket-api/main.py:110 | the filter keeps exactly the tickets whose id differs; it never grows the list and shrinks it when the id is present |
| TicketStore.Create | ticket-api/main.py:55-64 | the new ticket gets the old counter as id, status open, the given title, description and assignee, and the given priority or medium when none is given; it is appended after the unchanged earlier tickets; the counter goes up by exactly 1 |
| TicketStore.List | ticket-api/main.py:68-70 | returns the stored tickets unchanged, in insertion order; under the invariant ids increase along the result, i.e. it is in creation order (see also History.ListAfterCreates) |
| TicketStore.Get | ticket-api/main.py:73-79 | fails with NotFound exactly when no stored ticket has the id; otherwise returns the first stored ticket with that id |
| TicketStore.Update | ticket-api/main.py:82-99 | fails with NotFound exactly when no stored ticket has the id; otherwise only the first ticket with that id changes, by the patch rules; its position, every other ticket, the list length and the counter stay the same, and the patched ticket is returned |
| TicketStore.Delete | ticket-api/main.py:102-111 | fails with NotFound exactly when no stored ticket has the id; otherwise no ticket with that id remains, every other ticket does, the list gets shorter and the counter is untouched |
| StoreLemmas.IdsUnique | ticket-api/main.py:56-64 | under the invariant no two stored tickets share an id |
| StoreLemmas.RemoveAbsent | ticket-api/main.py:110 | filtering out an id no ticket carries leaves the list as it was |
| StoreLemmas.RemoveAppend | ticket-api/main.py:110 | the filter treats each ticket on its own, so filtering a concatenation is the concatenation of the filtered parts |
| StoreLemmas.RemoveSingle | ticket-api/main.py:110 | when exactly one ticket carries the id, the filter removes just that ticket and keeps the others in their order |
| StoreLemmas.DeleteRemovesExactlyOne | ticket-api/main.py:106-110 | under the invariant, deleting a stored id leaves the list with just the matched ticket cut out: one shorter, survivors in their relative order, counter unchanged |
| StoreLemmas.CreatePreservesGood | ticket-api/main.py:55-64 | create keeps the ids unique, increasing and below the counter |
| StoreLemmas.UpdatePreservesGood | ticket-api/main.py:87-97 | update keeps the invariant |
| StoreLemmas.DeletePreservesGood | ticket-api/main.py:106-110 | delete keeps the invariant |
| StoreLemmas.GetFindsStored | ticket-api/main.py:76-79 | under the invariant, get of a stored ticket's id returns that very ticket |
| StoreLemmas.GetAfterCreate | ticket-api/main.py:55-79 | get of the id just assigned returns the created ticket, and get of every other id answers as before |
| StoreLemmas.GetAfterUpdate | ticket-api/main.py:76-99 | a later get of the updated id returns the ticket update returned, because the patch is in place; get of other ids is unaffected |
| StoreLemmas.GetAfterDelete | ticket-api/main.py:76-110 | a later get of a deleted id fails with NotFound; get of other ids is unaffected |
| StoreLemmas.UpdateSkipsTitleBounds | ticket-api/main.py:92-93 | a title longer than 100 characters is accepted by update as it is, since update does not check the bounds create requires |
| History.Apply | ticket-api/main.py:51-111 | an accepted create moves the counter up by 1 and adds a ticket; nothing else moves the counter; a create failing the field bounds, and an update or delete of a missing id, leave the store unchanged |
| History.ApplyPreservesGood | ticket-api/main.py:51-111 | every single request keeps the invariant |
| History.RunPreservesGood | ticket-api/main.py:42-111 | every sequence of requests from a good store keeps the invariant |
| History.IssuedConsecutive | ticket-api/main.py:56-64 | the accepted creates of any history receive consecutive ids from the counter, with any updates and deletes in between, and the counter ends just past the last one |
| History.IdsFromStart | ticket-api/main.py:42-64 | from process start, the k-th accepted create gets id k+1, so issued ids strictly increase and are never reissued after a delete, and every stored id is one that was issued |
| History.ListAfterCreates | ticket-api/main.py:55-70 | after N accepted creates the list has N more tickets, the earlier ones unchanged, then the new ones in creation order with consecutive ids |
| History.PrinterJamExample | ticket-api/main.py:51-111 | a low-priority ticket created first gets id 1, status open and no assignee; an update closes it; after deleting it, get of id 1 fails with NotFound |

## Left out

- HTTP wiring is not modelled: the FastAPI app, routes, response models, JSON
  serialisation, and the mapping of NotFound to status 404. So are the welcome
  message at `/` and the `main` print stub. These are transport, not store logic.
  One consequence lies here: update, get and list answer through the `Ticket`
  response model (main.py:23-30), whose title is capped at 100 characters. An
  update that stores a longer title (`StoreLemmas.UpdateSkipsTitleBounds`) would
  likely make that response, and later get or list responses for the ticket, fail
  validation with a server error while the long title stays stored. The model
  covers only the stored state.
- Request validation is library behaviour and is left out as such, including the
  422 response. Its length bounds appear as `Tickets.ValidCreate`:
  `TicketStore.Create` requires it, and `History.Apply` treats a failing create as
  a no-op.
- The wall clock `datetime.datetime.now()` is replaced by a `Timestamp`
  parameter. The model only shows that `createdAt` is set at creation and never
  changed.
- A `Ticket` that was never stored can have `id` and `created_at` equal to None.
  The model leaves this out: every ticket in the store has both.
- Async handlers and shared global state are out of scope. Each operation is
  treated as one atomic step.
- Aliasing is not modelled: in the code, a ticket object returned earlier changes
  when a later update patches it. The value model shows the same effect through
  `StoreLemmas.GetAfterUpdate`: a later get sees the patched ticket.
