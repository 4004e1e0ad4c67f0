/** The shared `gifts` table of the store-backed variant, as a map from id
    to row, and the statements main.jsx sends to it. Every statement is one
    atomic step; a run of the store is any sequence of such steps. */
module Store {
  import opened Gifts

  /** What a call to the store yields: the statement's result, or the
      exception the client throws (connection or server failure). */
  datatype Reply<T> = Ok(value: T) | Thrown

  /** How one request to the store ends. Each `await sql` is a single
      request: its reply arrives (`Replied`), it fails before the statement
      runs (`NeverReached`), or the statement commits and the reply is lost
      (`ReplyLost`). The client throws in the last two cases. */
  datatype Delivery = Replied | NeverReached | ReplyLost

  /** The statement the table actually executes for a request `op`. */
  function Sent(d: Delivery, op: Op): Op {
    if d == NeverReached then Failed else op
  }

  /** The table invariant: rows are keyed by their own id, every id was
      issued by the serial counter, and every row is consistent. */
  predicate ValidRows(rows: map<int, Gift>, nextId: int) {
    forall k :: k in rows ==> rows[k].id == k && k < nextId && Consistent(rows[k])
  }

  /** The whole table: its rows and the next value of the `id SERIAL`
      sequence. */
  datatype Table = Table(rows: map<int, Gift>, nextId: int)

  predicate ValidTable(t: Table) { ValidRows(t.rows, t.nextId) }

  /** The guard of the claim: `WHERE id = key AND status = 'Aún disponible'`.
      A missing key (`id = NULL`) matches no row. */
  predicate Claimable(rows: map<int, Gift>, key: Option<int>) {
    key.Some? && key.value in rows && rows[key.value].status == Available
  }

  /** The rows after the guarded claim: the matching row, if any, becomes
      purchased by `name` at `now`; nothing else changes, and nothing
      changes at all when no row matches. */
  function ClaimRows(rows: map<int, Gift>, key: Option<int>, name: string, now: Timestamp): (r: map<int, Gift>)
    ensures r.Keys == rows.Keys
    ensures Claimable(rows, key) ==>
      r[key.value].status == Purchased && r[key.value].purchasedAt == Some(now) &&
      r[key.value].purchaserName == name && SameListing(r[key.value], rows[key.value])
    ensures forall k :: k in rows && (key != Some(k) || rows[k].status == Purchased) ==> r[k] == rows[k]
    ensures !Claimable(rows, key) ==> r == rows
  {
    if Claimable(rows, key) then rows[key.value := Claimed(rows[key.value], name, now)] else rows
  }

  /** `RETURNING *` of the claim: the updated row, or nothing when the
      guard matched no row. */
  function ClaimReturned(rows: map<int, Gift>, key: Option<int>, name: string, now: Timestamp): (r: seq<Gift>)
    ensures |r| <= 1
    ensures |r| == 1 <==> Claimable(rows, key)
    ensures |r| == 1 ==> r[0] == ClaimRows(rows, key, name, now)[key.value]
  {
    if Claimable(rows, key) then [Claimed(rows[key.value], name, now)] else []
  }

  /** The reset statement: the row with `id`, if any, becomes available with
      no purchase time and an empty purchaser; nothing else changes. */
  function ResetRows(rows: map<int, Gift>, id: int): (r: map<int, Gift>)
    ensures r.Keys == rows.Keys
    ensures id in rows ==>
      r[id].status == Available && r[id].purchasedAt == None && r[id].purchaserName == "" &&
      SameListing(r[id], rows[id])
    ensures forall k :: k in rows && k != id ==> r[k] == rows[k]
  {
    if id in rows then rows[id := Cleared(rows[id])] else rows
  }

  /** The single-field update: the row with `id`, if any, takes the edit. */
  function UpdateRows(rows: map<int, Gift>, id: int, e: Edit): (r: map<int, Gift>)
    ensures r.Keys == rows.Keys
    ensures id in rows ==>
      Holds(r[id], e) && forall f :: f != EditedField(e) ==> SameField(r[id], rows[id], f)
    ensures forall k :: k in rows && k != id ==> r[k] == rows[k]
  {
    if id in rows then rows[id := ApplyEdit(rows[id], e)] else rows
  }

  /** The delete statement: the row with `id` is gone, every other row stays. */
  function DeleteRows(rows: map<int, Gift>, id: int): (r: map<int, Gift>)
    ensures r.Keys == rows.Keys - {id}
    ensures forall k :: k in r ==> r[k] == rows[k]
  {
    rows - {id}
  }

  /** The insert statement: a blank row under the next serial id. */
  function InsertRow(t: Table): (r: Table)
    ensures r.nextId == t.nextId + 1
    ensures r.rows.Keys == t.rows.Keys + {t.nextId}
    ensures r.rows[t.nextId] == BlankGift(t.nextId)
    ensures forall k :: k in t.rows && k != t.nextId ==> r.rows[k] == t.rows[k]
  {
    Table(t.rows[t.nextId := BlankGift(t.nextId)], t.nextId + 1)
  }

  // ---------------------------------------------------------------------
  // Runs of the store

  /** One statement, as any client may send it. A call that never reaches
      the table changes nothing and is a `Failed` step; a call whose reply
      is lost after the commit is the statement itself. */
  datatype Op =
    | ClaimOp(key: Option<int>, name: string, now: Timestamp)
    | ResetOp(id: int)
    | UpdateOp(id: int, edit: Edit)
    | DeleteOp(id: int)
    | InsertOp
    | Failed

  function Step(t: Table, op: Op): (r: Table)
    ensures r.nextId == if op.InsertOp? then t.nextId + 1 else t.nextId
    ensures forall k :: k in r.rows ==> k in t.rows || (op.InsertOp? && k == t.nextId)
    ensures op.Failed? ==> r == t
  {
    match op
    case ClaimOp(key, name, now) => Table(ClaimRows(t.rows, key, name, now), t.nextId)
    case ResetOp(id) => Table(ResetRows(t.rows, id), t.nextId)
    case UpdateOp(id, e) => Table(UpdateRows(t.rows, id, e), t.nextId)
    case DeleteOp(id) => Table(DeleteRows(t.rows, id), t.nextId)
    case InsertOp => InsertRow(t)
    case Failed => t
  }

  /** Every statement keeps the table invariant. */
  lemma StepKeepsValid(t: Table, op: Op)
    requires ValidTable(t)
    ensures ValidTable(Step(t, op))
  {
  }

  /** The table after a run. The serial counter never goes back, and no
      row appears under an id the counter had already passed unless it was
      there at the start: a deleted id is never issued again. */
  function Run(t: Table, ops: seq<Op>): (r: Table)
    ensures r.nextId >= t.nextId
    ensures forall k :: k in r.rows ==> k in t.rows || t.nextId <= k < r.nextId
    decreases |ops|
  {
    if ops == [] then t else Run(Step(t, ops[0]), ops[1..])
  }

  lemma {:induction false} RunKeepsValid(t: Table, ops: seq<Op>)
    requires ValidTable(t)
    ensures ValidTable(Run(t, ops))
    decreases |ops|
  {
    if ops != [] {
      StepKeepsValid(t, ops[0]);
      RunKeepsValid(Step(t, ops[0]), ops[1..]);
    }
  }

  /** `op` is a claim on `id` whose guard matches, i.e. one that returns a row. */
  predicate ClaimSucceeds(t: Table, op: Op, id: int) {
    op.ClaimOp? && op.key == Some(id) && Claimable(t.rows, op.key)
  }

  /** How many claims on `id` in the run return a row. */
  function Successes(t: Table, ops: seq<Op>, id: int): nat
    decreases |ops|
  {
    if ops == [] then 0
    else (if ClaimSucceeds(t, ops[0], id) then 1 else 0) + Successes(Step(t, ops[0]), ops[1..], id)
  }

  predicate NoResetOf(ops: seq<Op>, id: int) {
    forall i :: 0 <= i < |ops| ==> ops[i] != ResetOp(id)
  }

  /** The gift `id` cannot be claimed again without a reset: its row is
      purchased, or it is gone and its id will never be issued again. */
  predicate Spent(t: Table, id: int) {
    (id in t.rows && t.rows[id].status == Purchased) || (id !in t.rows && id < t.nextId)
  }

  lemma StepKeepsSpent(t: Table, op: Op, id: int)
    requires ValidTable(t) && Spent(t, id) && op != ResetOp(id)
    ensures Spent(Step(t, op), id) && !ClaimSucceeds(t, op, id)
  {
  }

  lemma {:induction false} NoSuccessOnceSpent(t: Table, ops: seq<Op>, id: int)
    requires ValidTable(t) && Spent(t, id) && NoResetOf(ops, id)
    ensures Successes(t, ops, id) == 0
    decreases |ops|
  {
    if ops != [] {
      assert ops[0] != ResetOp(id);
      StepKeepsSpent(t, ops[0], id);
      StepKeepsValid(t, ops[0]);
      assert NoResetOf(ops[1..], id) by {
        forall i | 0 <= i < |ops[1..]| ensures ops[1..][i] != ResetOp(id) {
          assert ops[1..][i] == ops[i + 1];
        }
      }
      NoSuccessOnceSpent(Step(t, ops[0]), ops[1..], id);
    }
  }

  /** At most one claim per gift: in any sequential interleaving of store
      statements from any number of clients, at most one claim on `id`
      returns a row unless the gift is reset in between. */
  lemma {:induction false} AtMostOneClaim(t: Table, ops: seq<Op>, id: int)
    requires ValidTable(t) && NoResetOf(ops, id)
    ensures Successes(t, ops, id) <= 1
    decreases |ops|
  {
    if ops != [] {
      StepKeepsValid(t, ops[0]);
      assert NoResetOf(ops[1..], id) by {
        forall i | 0 <= i < |ops[1..]| ensures ops[1..][i] != ResetOp(id) {
          assert ops[1..][i] == ops[i + 1];
        }
      }
      if ClaimSucceeds(t, ops[0], id) {
        assert Spent(Step(t, ops[0]), id);
        NoSuccessOnceSpent(Step(t, ops[0]), ops[1..], id);
      } else {
        AtMostOneClaim(Step(t, ops[0]), ops[1..], id);
      }
    }
  }

  predicate AllClaimsOn(ops: seq<Op>, id: int) {
    forall i :: 0 <= i < |ops| ==> ops[i].ClaimOp? && ops[i].key == Some(id)
  }

  /** Of any number of competing claims on an available gift, exactly one
      returns a row; every other one matches nothing. */
  lemma ExactlyOneClaim(t: Table, ops: seq<Op>, id: int)
    requires ValidTable(t) && Claimable(t.rows, Some(id))
    requires |ops| > 0 && AllClaimsOn(ops, id)
    ensures Successes(t, ops, id) == 1
  {
    assert ClaimSucceeds(t, ops[0], id);
    StepKeepsValid(t, ops[0]);
    assert NoResetOf(ops[1..], id) by {
      forall i | 0 <= i < |ops[1..]| ensures ops[1..][i] != ResetOp(id) {
        assert ops[1..][i] == ops[i + 1];
      }
    }
    NoSuccessOnceSpent(Step(t, ops[0]), ops[1..], id);
  }

  /** After a reset, the next claim on the gift returns its row, purchased
      by the new claimant. */
  lemma ResetRestoresClaim(rows: map<int, Gift>, id: int, name: string, now: Timestamp)
    requires id in rows
    ensures var r := ClaimReturned(ResetRows(rows, id), Some(id), name, now);
      |r| == 1 && r[0].purchaserName == name && r[0].purchasedAt == Some(now)
  {
  }

  // ---------------------------------------------------------------------
  // The store as an object

  /** The store behind the client: one `gifts` table. Each method is one
      statement; `d` says how the request ends. */
  class CatalogStore {
    var rows: map<int, Gift>
    var nextId: int

    predicate Valid()
      reads this
    {
      ValidRows(rows, nextId)
    }

    function Snapshot(): Table
      reads this
    {
      Table(rows, nextId)
    }

    /** An empty table whose serial sequence starts at 1. */
    constructor ()
      ensures Valid() && rows == map[] && nextId == 1
    {
      rows := map[];
      nextId := 1;
    }

    /** The guarded `UPDATE … WHERE id = key AND status = 'Aún disponible'
        RETURNING *`, one atomic compare-and-swap on the row. */
    method Claim(key: Option<int>, name: string, now: Timestamp, d: Delivery) returns (reply: Reply<seq<Gift>>)
      requires Valid()
      modifies this
      ensures Valid() && nextId == old(nextId)
      ensures reply.Thrown? <==> d != Replied
      ensures d == Replied ==> reply == Ok(ClaimReturned(old(rows), key, name, now))
      ensures d == NeverReached ==> rows == old(rows)
      ensures d != NeverReached ==> rows == ClaimRows(old(rows), key, name, now)
      ensures Snapshot() == Step(old(Snapshot()), Sent(d, ClaimOp(key, name, now)))
    {
      if d == NeverReached {
        return Thrown;
      }
      if key.Some? && key.value in rows && rows[key.value].status == Available {
        var row := Claimed(rows[key.value], name, now);
        rows := rows[key.value := row];
        reply := Ok([row]);
      } else {
        reply := Ok([]);
      }
      if d == ReplyLost {
        reply := Thrown;
      }
    }

    /** `INSERT … RETURNING *` of a blank gift. */
    method Insert(d: Delivery) returns (reply: Reply<seq<Gift>>)
      requires Valid()
      modifies this
      ensures Valid()
      ensures reply.Thrown? <==> d != Replied
      ensures d == Replied ==> reply == Ok([BlankGift(old(nextId))])
      ensures d == NeverReached ==> rows == old(rows) && nextId == old(nextId)
      ensures d != NeverReached ==>
        rows == old(rows)[old(nextId) := BlankGift(old(nextId))] && nextId == old(nextId) + 1
      ensures Snapshot() == Step(old(Snapshot()), Sent(d, InsertOp))
    {
      if d == NeverReached {
        return Thrown;
      }
      var row := BlankGift(nextId);
      rows := rows[nextId := row];
      nextId := nextId + 1;
      reply := if d == ReplyLost then Thrown else Ok([row]);
    }

    /** `UPDATE gifts SET <field> = <value> WHERE id = …`. */
    method Update(id: int, e: Edit, d: Delivery) returns (reply: Reply<()>)
      requires Valid()
      modifies this
      ensures Valid() && nextId == old(nextId)
      ensures reply.Thrown? <==> d != Replied
      ensures d == NeverReached ==> rows == old(rows)
      ensures d != NeverReached ==> rows == UpdateRows(old(rows), id, e)
      ensures Snapshot() == Step(old(Snapshot()), Sent(d, UpdateOp(id, e)))
    {
      if d == NeverReached {
        return Thrown;
      }
      StepKeepsValid(Snapshot(), UpdateOp(id, e));
      rows := UpdateRows(rows, id, e);
      reply := if d == ReplyLost then Thrown else Ok(());
    }

    /** `DELETE FROM gifts WHERE id = …`. */
    method Delete(id: int, d: Delivery) returns (reply: Reply<()>)
      requires Valid()
      modifies this
      ensures Valid() && nextId == old(nextId)
      ensures reply.Thrown? <==> d != Replied
      ensures d == NeverReached ==> rows == old(rows)
      ensures d != NeverReached ==> rows == DeleteRows(old(rows), id)
      ensures Snapshot() == Step(old(Snapshot()), Sent(d, DeleteOp(id)))
    {
      if d == NeverReached {
        return Thrown;
      }
      rows := rows - {id};
      reply := if d == ReplyLost then Thrown else Ok(());
    }

    /** The reset `UPDATE … SET status = 'Aún disponible', purchased_at =
        NULL, purchaser_name = '' WHERE id = …`. */
    method Reset(id: int, d: Delivery) returns (reply: Reply<()>)
      requires Valid()
      modifies this
      ensures Valid() && nextId == old(nextId)
      ensures reply.Thrown? <==> d != Replied
      ensures d == NeverReached ==> rows == old(rows)
      ensures d != NeverReached ==> rows == ResetRows(old(rows), id)
      ensures Snapshot() == Step(old(Snapshot()), Sent(d, ResetOp(id)))
    {
      if d == NeverReached {
        return Thrown;
      }
      if id in rows {
        rows := rows[id := Cleared(rows[id])];
      }
      reply := if d == ReplyLost then Thrown else Ok(());
    }
  }
}
