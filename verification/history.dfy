/** Sequences of requests against the store: the invariant holds across any history,
    ids are handed out consecutively whatever is deleted in between, and listing after
    a run of creates shows the tickets in creation order. */
module History {
  import opened Wrappers
  import opened Tickets
  import opened TicketStore
  import StoreLemmas

  /** A mutating request. Reads (list, get) do not change the store and are not needed here. */
  datatype Op =
    | CreateOp(req: TicketCreate, now: Timestamp)
    | UpdateOp(id: int, patch: TicketPatch)
    | DeleteOp(id: int)

  /** True when a request is a create that passes the field constraints. */
  predicate AcceptedCreate(op: Op) {
    op.CreateOp? && ValidCreate(op.req)
  }

  /** The store after one request. A create that breaks the field constraints is refused
      before it reaches the store, and an update or delete of a missing id raises, so
      neither changes anything. */
  function Apply(s: Store, op: Op): (r: Store)
    ensures AcceptedCreate(op) ==> r.nextId == s.nextId + 1 && |r.tickets| == |s.tickets| + 1
    ensures !AcceptedCreate(op) ==> r.nextId == s.nextId
    ensures op.CreateOp? && !ValidCreate(op.req) ==> r == s
    ensures !op.CreateOp? && !HasId(s.tickets, op.id) ==> r == s
    ensures op.DeleteOp? && HasId(s.tickets, op.id) ==> |r.tickets| < |s.tickets|
  {
    match op
    case CreateOp(req, now) =>
      if ValidCreate(req) then Create(s, req, now).0 else s
    case UpdateOp(id, p) =>
      (match Update(s, id, p)
       case Ok(updated) => updated.0
       case Err(_) => s)
    case DeleteOp(id) =>
      (match Delete(s, id)
       case Ok(s') => s'
       case Err(_) => s)
  }

  /** The store after a whole history, applied front to back. */
  function Run(s: Store, ops: seq<Op>): Store
    decreases |ops|
  {
    if |ops| == 0 then s else Run(Apply(s, ops[0]), ops[1..])
  }

  /** The ids returned by the accepted creates of a history, in order. */
  function Issued(s: Store, ops: seq<Op>): seq<int>
    decreases |ops|
  {
    if |ops| == 0 then []
    else
      var head := if AcceptedCreate(ops[0]) then [s.nextId] else [];
      head + Issued(Apply(s, ops[0]), ops[1..])
  }

  /** Every single request keeps the invariant. */
  lemma ApplyPreservesGood(s: Store, op: Op)
    requires Good(s)
    ensures Good(Apply(s, op))
  {
    match op
    case CreateOp(req, now) =>
      if ValidCreate(req) {
        StoreLemmas.CreatePreservesGood(s, req, now);
      }
    case UpdateOp(id, p) =>
      StoreLemmas.UpdatePreservesGood(s, id, p);
    case DeleteOp(id) =>
      StoreLemmas.DeletePreservesGood(s, id);
  }

  /** Every history keeps the invariant. */
  lemma {:induction false} RunPreservesGood(s: Store, ops: seq<Op>)
    requires Good(s)
    ensures Good(Run(s, ops))
    decreases |ops|
  {
    if |ops| > 0 {
      ApplyPreservesGood(s, ops[0]);
      RunPreservesGood(Apply(s, ops[0]), ops[1..]);
    }
  }

  /** The accepted creates of a history receive consecutive ids starting at the counter,
      whatever updates and deletes come in between, and the counter ends just past them. */
  lemma {:induction false} IssuedConsecutive(s: Store, ops: seq<Op>)
    ensures Run(s, ops).nextId == s.nextId + |Issued(s, ops)|
    ensures forall i :: 0 <= i < |Issued(s, ops)| ==> Issued(s, ops)[i] == s.nextId + i
    decreases |ops|
  {
    if |ops| > 0 {
      var s' := Apply(s, ops[0]);
      IssuedConsecutive(s', ops[1..]);
      var head := if AcceptedCreate(ops[0]) then [s.nextId] else [];
      var rest := Issued(s', ops[1..]);
      assert Issued(s, ops) == head + rest;
      forall i | 0 <= i < |head + rest| ensures (head + rest)[i] == s.nextId + i {
        if i >= |head| {
          assert (head + rest)[i] == rest[i - |head|];
        }
      }
    }
  }

  /** From process start, the k-th accepted create gets id k + 1, so the ids ever issued
      are pairwise distinct and a deleted id is never handed out again; every stored id is
      one that was issued. */
  lemma IdsFromStart(ops: seq<Op>)
    ensures forall i :: 0 <= i < |Issued(Init(), ops)| ==> Issued(Init(), ops)[i] == i + 1
    ensures forall i, j :: 0 <= i < j < |Issued(Init(), ops)| ==> Issued(Init(), ops)[i] < Issued(Init(), ops)[j]
    ensures Good(Run(Init(), ops))
    ensures forall t :: t in Run(Init(), ops).tickets ==> t.id in Issued(Init(), ops)
  {
    IssuedConsecutive(Init(), ops);
    RunPreservesGood(Init(), ops);
    var issued := Issued(Init(), ops);
    forall t | t in Run(Init(), ops).tickets ensures t.id in issued {
      assert issued[t.id - 1] == t.id;
    }
  }

  /** After a run of accepted creates, listing shows the earlier tickets unchanged followed
      by one new ticket per create, in creation order, with consecutive ids. */
  lemma {:induction false} ListAfterCreates(s: Store, ops: seq<Op>)
    requires forall i :: 0 <= i < |ops| ==> ops[i].CreateOp? && ValidCreate(ops[i].req)
    ensures |List(Run(s, ops))| == |s.tickets| + |ops|
    ensures List(Run(s, ops))[..|s.tickets|] == s.tickets
    ensures forall i :: 0 <= i < |ops| ==>
      List(Run(s, ops))[|s.tickets| + i] == NewTicket(s.nextId + i, ops[i].req, ops[i].now)
    decreases |ops|
  {
    if |ops| > 0 {
      var s' := Apply(s, ops[0]);
      assert s'.tickets == s.tickets + [NewTicket(s.nextId, ops[0].req, ops[0].now)];
      assert s'.nextId == s.nextId + 1;
      ListAfterCreates(s', ops[1..]);
      var ts := List(Run(s, ops));
      assert ts == List(Run(s', ops[1..]));
      assert ts[..|s.tickets|] == ts[..|s'.tickets|][..|s.tickets|];
      forall i | 0 <= i < |ops|
        ensures ts[|s.tickets| + i] == NewTicket(s.nextId + i, ops[i].req, ops[i].now)
      {
        if i == 0 {
          assert ts[|s.tickets|] == ts[..|s'.tickets|][|s.tickets|];
        } else {
          assert ops[1..][i - 1] == ops[i];
          assert ts[|s'.tickets| + (i - 1)] == NewTicket(s'.nextId + (i - 1), ops[i].req, ops[i].now);
        }
      }
    }
  }

  /** A worked example: a low-priority ticket is created with id 1 and status open,
      closed by an update, deleted, and then no longer found. */
  lemma PrinterJamExample(now: Timestamp)
    ensures
      var req := TicketCreate("Printer jam", "Printer on 3rd floor is jammed", Some(Low), None);
      var (s1, t1) := Create(Init(), req, now);
      && t1.id == 1 && t1.status == Open && t1.priority == Low && t1.assignee == None
      && Update(s1, 1, TicketPatch(None, Some(Closed), None)).Ok?
      && Update(s1, 1, TicketPatch(None, Some(Closed), None)).value.1.status == Closed
      && Delete(Update(s1, 1, TicketPatch(None, Some(Closed), None)).value.0, 1).Ok?
      && Get(Delete(Update(s1, 1, TicketPatch(None, Some(Closed), None)).value.0, 1).value, 1) == Err(NotFound)
  {
  }
}
