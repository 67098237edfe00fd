/** Properties relating the store operations to each other and to the invariant `Good`. */
module StoreLemmas {
  import opened Wrappers
  import opened Tickets
  import opened TicketStore

  /** Under the invariant no two stored tickets share an id. */
  lemma IdsUnique(s: Store)
    requires Good(s)
    ensures forall i, j :: 0 <= i < |s.tickets| && 0 <= j < |s.tickets| && s.tickets[i].id == s.tickets[j].id ==> i == j
  {
  }

  /** Removing an id that no ticket carries changes nothing. */
  lemma {:induction false} RemoveAbsent(ts: seq<Ticket>, id: int)
    requires !HasId(ts, id)
    ensures Remove(ts, id) == ts
    decreases |ts|
  {
    if |ts| > 0 {
      assert ts[0].id != id;
      assert !HasId(ts[1..], id) by {
        forall i | 0 <= i < |ts[1..]| ensures ts[1..][i].id != id {
          assert ts[1..][i] == ts[i + 1];
        }
      }
      RemoveAbsent(ts[1..], id);
      assert ts == [ts[0]] + ts[1..];
    }
  }

  /** The filter works element by element, so it distributes over concatenation. */
  lemma {:induction false} RemoveAppend(a: seq<Ticket>, b: seq<Ticket>, id: int)
    ensures Remove(a + b, id) == Remove(a, id) + Remove(b, id)
    decreases |a|
  {
    if |a| == 0 {
      assert a + b == b;
    } else {
      assert (a + b)[0] == a[0];
      assert (a + b)[1..] == a[1..] + b;
      RemoveAppend(a[1..], b, id);
    }
  }

  /** When exactly one ticket carries `id`, the filter removes just that one and keeps
      the survivors in their original order. */
  lemma RemoveSingle(ts: seq<Ticket>, id: int, k: nat)
    requires k < |ts| && ts[k].id == id
    requires forall j :: 0 <= j < |ts| && j != k ==> ts[j].id != id
    ensures Remove(ts, id) == ts[..k] + ts[k + 1..]
  {
    var before, after := ts[..k], ts[k + 1..];
    assert ts == before + ([ts[k]] + after);
    assert !HasId(before, id) by {
      forall i | 0 <= i < |before| ensures before[i].id != id {
        assert before[i] == ts[i];
      }
    }
    assert !HasId(after, id) by {
      forall i | 0 <= i < |after| ensures after[i].id != id {
        assert after[i] == ts[k + 1 + i];
      }
    }
    RemoveAbsent(before, id);
    RemoveAbsent(after, id);
    RemoveAppend([ts[k]], after, id);
    RemoveAppend(before, [ts[k]] + after, id);
    assert Remove([ts[k]], id) == [];
  }

  /** Delete of a stored id under the invariant: exactly the matching ticket disappears,
      the survivors keep their relative order, and the list shrinks by one. */
  lemma DeleteRemovesExactlyOne(s: Store, id: int)
    requires Good(s)
    requires HasId(s.tickets, id)
    ensures IndexOf(s.tickets, id).Some?
    ensures var k := IndexOf(s.tickets, id).value;
      Delete(s, id) == Ok(Store(s.tickets[..k] + s.tickets[k + 1..], s.nextId))
    ensures Delete(s, id).Ok? && |Delete(s, id).value.tickets| == |s.tickets| - 1
  {
    var k := IndexOf(s.tickets, id).value;
    IdsUnique(s);
    RemoveSingle(s.tickets, id, k);
  }

  /** Create keeps the invariant. */
  lemma CreatePreservesGood(s: Store, req: TicketCreate, now: Timestamp)
    requires Good(s) && ValidCreate(req)
    ensures Good(Create(s, req, now).0)
  {
  }

  /** Update keeps the invariant: ids, their order and descriptions are untouched. */
  lemma UpdatePreservesGood(s: Store, id: int, p: TicketPatch)
    requires Good(s)
    ensures Update(s, id, p).Ok? ==> Good(Update(s, id, p).value.0)
  {
  }

  /** Delete keeps the invariant, and leaves the counter where it was. */
  lemma DeletePreservesGood(s: Store, id: int)
    requires Good(s)
    ensures Delete(s, id).Ok? ==> Good(Delete(s, id).value)
  {
    if HasId(s.tickets, id) {
      DeleteRemovesExactlyOne(s, id);
      var k := IndexOf(s.tickets, id).value;
      var ts' := s.tickets[..k] + s.tickets[k + 1..];
      forall i | 0 <= i < |ts'| ensures ts'[i] == s.tickets[if i < k then i else i + 1] {
      }
    }
  }

  /** Under the invariant, get finds every stored ticket by its own id. */
  lemma GetFindsStored(s: Store, t: Ticket)
    requires Good(s) && t in s.tickets
    ensures Get(s, t.id) == Ok(t)
  {
  }

  /** A freshly created ticket is what get returns for the id it was given, and get of
      any other id answers as before. */
  lemma GetAfterCreate(s: Store, req: TicketCreate, now: Timestamp, other: int)
    requires Good(s) && ValidCreate(req)
    ensures Get(Create(s, req, now).0, s.nextId) == Ok(Create(s, req, now).1)
    ensures other != s.nextId ==> Get(Create(s, req, now).0, other) == Get(s, other)
  {
    var (s', t) := Create(s, req, now);
    CreatePreservesGood(s, req, now);
    GetFindsStored(s', t);
    if other != s.nextId && HasId(s.tickets, other) {
      var u := Get(s, other).value;
      GetFindsStored(s, u);
      GetFindsStored(s', u);
    }
  }

  /** After a successful update, get of that id sees the patched ticket the update returned
      (the update is in place), and get of any other id answers as before. */
  lemma GetAfterUpdate(s: Store, id: int, p: TicketPatch, other: int)
    requires Good(s) && HasId(s.tickets, id)
    ensures Update(s, id, p).Ok?
    ensures Get(Update(s, id, p).value.0, id) == Ok(Update(s, id, p).value.1)
    ensures other != id ==> Get(Update(s, id, p).value.0, other) == Get(s, other)
  {
  }

  /** After a successful delete, get of the deleted id fails, and get of any other id
      answers as before. */
  lemma GetAfterDelete(s: Store, id: int, other: int)
    requires Good(s) && HasId(s.tickets, id)
    ensures Delete(s, id).Ok?
    ensures Get(Delete(s, id).value, id) == Err(NotFound)
    ensures other != id ==> Get(Delete(s, id).value, other) == Get(s, other)
  {
    var s' := Delete(s, id).value;
    DeletePreservesGood(s, id);
    if other != id && HasId(s.tickets, other) {
      var u := Get(s, other).value;
      GetFindsStored(s, u);
      GetFindsStored(s', u);
    }
  }

  /** Update does not re-check the title bounds: any non-empty title is taken as given,
      even one longer than a create request may carry. */
  lemma UpdateSkipsTitleBounds(s: Store, id: int, title: string)
    requires HasId(s.tickets, id) && |title| > MaxTitleLength
    ensures Update(s, id, TicketPatch(Some(title), None, None)).Ok?
    ensures Update(s, id, TicketPatch(Some(title), None, None)).value.1.title == title
    ensures !ValidTitle(Update(s, id, TicketPatch(Some(title), None, None)).value.1.title)
  {
  }
}
