/**
 * The soft-delete webhook table (backend/db/webhookDb.js).
 *
 * A table maps the primary key `id` to the other columns. SQLite promises no row order for
 * these queries, so a result list is a set (ids are unique, nothing is lost).
 */
module Webhooks {
  import opened Options

  datatype Row = Row(publicKey: string, url: string, secretHash: string, createdAt: string, active: bool)

  type Table = map<string, Row>

  /** What `getAllActive` and `getById` return for a row. */
  datatype Registration = Registration(
    id: string, publicKey: string, url: string, secretHash: string, createdAt: string)

  /** What `getByPublicKey` returns for a row: no secret. */
  datatype Listing = Listing(id: string, publicKey: string, url: string, createdAt: string)

  datatype Operation =
    | Insert(id: string, publicKey: string, url: string, secretHash: string, createdAt: string)
    | Deactivate(id: string)

  // ----- Effect of one statement -----

  /** The table after `op`; an insert with a taken primary key throws and changes nothing. */
  function After(t: Table, op: Operation): Table {
    match op
    case Insert(id, publicKey, url, secretHash, createdAt) =>
      if id in t then t else t[id := Row(publicKey, url, secretHash, createdAt, true)]
    case Deactivate(id) =>
      if IsActive(t, id) then t[id := t[id].(active := false)] else t
  }

  /** An insert succeeded, or a deactivation changed a row. */
  predicate Succeeds(t: Table, op: Operation) {
    match op
    case Insert(id, _, _, _, _) => id !in t
    case Deactivate(id) => IsActive(t, id)
  }

  predicate IsActive(t: Table, id: string) {
    id in t && t[id].active
  }

  function View(id: string, r: Row): Registration {
    Registration(id, r.publicKey, r.url, r.secretHash, r.createdAt)
  }

  function WithoutSecret(r: Registration): Listing {
    Listing(r.id, r.publicKey, r.url, r.createdAt)
  }

  ghost predicate ShowsColumns(r: Registration, row: Row) {
    r.publicKey == row.publicKey && r.url == row.url && r.secretHash == row.secretHash && r.createdAt == row.createdAt
  }

  function AllActive(t: Table): set<Registration> {
    set id | id in t && t[id].active :: View(id, t[id])
  }

  function ByPublicKey(t: Table, publicKey: string): set<Listing> {
    set id | id in t && t[id].publicKey == publicKey && t[id].active :: WithoutSecret(View(id, t[id]))
  }

  /** The database connection of the source: one table changed in place. */
  class WebhookDb {
    var rows: Table

    constructor ()
      ensures rows == map[]
    {
      rows := map[];
    }

    /** `insertWebhook`; false when the primary key constraint throws. */
    method InsertWebhook(id: string, publicKey: string, url: string, secretHash: string, createdAt: string)
      returns (inserted: bool)
      modifies this
      ensures rows == After(old(rows), Insert(id, publicKey, url, secretHash, createdAt))
      ensures inserted == Succeeds(old(rows), Insert(id, publicKey, url, secretHash, createdAt))
      ensures inserted <==> id !in old(rows)
      ensures inserted ==> rows.Keys == old(rows.Keys) + {id} && rows - {id} == old(rows)
      ensures inserted ==>
                && rows[id].publicKey == publicKey && rows[id].url == url && rows[id].secretHash == secretHash
                && rows[id].createdAt == createdAt && rows[id].active
      ensures !inserted ==> rows == old(rows)
    {
      inserted := id !in rows;
      if inserted {
        rows := rows[id := Row(publicKey, url, secretHash, createdAt, true)];
      }
    }

    /** `deactivate`: the number of changed rows is the number of active rows with this id. */
    method Deactivate(id: string) returns (deactivated: bool)
      modifies this
      ensures rows == After(old(rows), Operation.Deactivate(id))
      ensures deactivated == Succeeds(old(rows), Operation.Deactivate(id))
      ensures deactivated <==> id in old(rows) && old(rows)[id].active
      ensures deactivated ==> rows - {id} == old(rows) - {id} && id in rows && rows[id] == old(rows)[id].(active := false)
      ensures !deactivated ==> rows == old(rows)
    {
      var matching := set k | k in rows && k == id && rows[k].active;
      rows := map k | k in rows :: if k in matching then rows[k].(active := false) else rows[k];
      assert IsActive(old(rows), id) ==> id in matching;
      assert !IsActive(old(rows), id) ==> matching == {};
      deactivated := |matching| > 0;
    }

    /** An entry is returned exactly when its id is an active row and it shows that row's columns. */
    method GetAllActive() returns (result: set<Registration>)
      ensures forall r :: r in result <==> r.id in rows && rows[r.id].active && ShowsColumns(r, rows[r.id])
    {
      result := set id | id in rows && rows[id].active :: View(id, rows[id]);
    }

    method GetByPublicKey(publicKey: string) returns (result: set<Listing>)
      ensures result == set r | r in AllActive(rows) && r.publicKey == publicKey :: WithoutSecret(r)
      ensures forall r :: r in result <==>
                && r.id in rows && rows[r.id].active && rows[r.id].publicKey == publicKey == r.publicKey
                && r.url == rows[r.id].url && r.createdAt == rows[r.id].createdAt
    {
      result := ByPublicKey(rows, publicKey);
      PerKeyQueryRestrictsAllActive(rows, publicKey);
    }

    method GetById(id: string) returns (result: Option<Registration>)
      ensures forall r :: result == Some(r) <==> r in AllActive(rows) && r.id == id
      ensures result.Some? <==> id in rows && rows[id].active
      ensures result.Some? ==> result.value.id == id && ShowsColumns(result.value, rows[id])
    {
      if id in rows && rows[id].active {
        result := Some(View(id, rows[id]));
      } else {
        result := None;
      }
    }
  }

  /** The per-key query is the all-active query restricted to that key, without secrets. */
  lemma PerKeyQueryRestrictsAllActive(t: Table, publicKey: string)
    ensures ByPublicKey(t, publicKey)
            == set r | r in AllActive(t) && r.publicKey == publicKey :: WithoutSecret(r)
  {
    var restricted := set r | r in AllActive(t) && r.publicKey == publicKey :: WithoutSecret(r);
    forall x | x in ByPublicKey(t, publicKey)
      ensures x in restricted
    {
      var id :| id in t && t[id].publicKey == publicKey && t[id].active
                && x == WithoutSecret(View(id, t[id]));
      assert View(id, t[id]) in AllActive(t);
    }
  }

  // ----- Whole runs -----

  function Run(t: Table, ops: seq<Operation>): Table
    decreases |ops|
  {
    if ops == [] then t else After(Run(t, ops[..|ops| - 1]), ops[|ops| - 1])
  }

  /** How often `deactivate(id)` returned true during the run. */
  function Deactivations(t: Table, ops: seq<Operation>, id: string): nat
    decreases |ops|
  {
    if ops == [] then 0 else
      var before, op := ops[..|ops| - 1], ops[|ops| - 1];
      Deactivations(t, before, id)
      + if op == Operation.Deactivate(id) && Succeeds(Run(t, before), op) then 1 else 0
  }

  /** How often an insert of `id` succeeded during the run. */
  function Insertions(t: Table, ops: seq<Operation>, id: string): nat
    decreases |ops|
  {
    if ops == [] then 0 else
      var before, op := ops[..|ops| - 1], ops[|ops| - 1];
      Insertions(t, before, id)
      + if op.Insert? && op.id == id && Succeeds(Run(t, before), op) then 1 else 0
  }

  /** No row is ever lost or rewritten, and `active` only goes from 1 to 0. */
  lemma {:induction false} RowsPersist(t: Table, ops: seq<Operation>)
    ensures forall id :: id in t ==>
              && id in Run(t, ops)
              && Run(t, ops)[id] in {t[id], t[id].(active := false)}
    decreases |ops|
  {
    if ops != [] {
      RowsPersist(t, ops[..|ops| - 1]);
    }
  }

  /**
   * Conservation over any run: successful inserts of an id account for its presence, and
   * successful deactivations account for its being inactive.
   */
  lemma {:induction false} RepliesAccountForTable(t: Table, ops: seq<Operation>, id: string)
    ensures (if id in t then 1 else 0) + Insertions(t, ops, id)
            == (if id in Run(t, ops) then 1 else 0)
    ensures (if id in t && !t[id].active then 1 else 0) + Deactivations(t, ops, id)
            == (if id in Run(t, ops) && !Run(t, ops)[id].active then 1 else 0)
    decreases |ops|
  {
    if ops != [] {
      RepliesAccountForTable(t, ops[..|ops| - 1], id);
    }
  }

  /**
   * On every run from the empty table: `deactivate(id)` is true at most once, exactly as often as
   * a row with that id is now inactive, and only after a successful insert.
   */
  lemma DeactivatedAtMostOnce(ops: seq<Operation>, id: string)
    ensures Deactivations(map[], ops, id) <= Insertions(map[], ops, id) <= 1
    ensures Deactivations(map[], ops, id) == 1 <==> id in Run(map[], ops) && !IsActive(Run(map[], ops), id)
    ensures IsActive(Run(map[], ops), id)
            <==> Insertions(map[], ops, id) == 1 && Deactivations(map[], ops, id) == 0
  {
    RepliesAccountForTable(map[], ops, id);
  }

  /** Once deactivated, an id is in no later query result and can never be inserted again. */
  lemma DeactivatedNeverReturns(t: Table, ops: seq<Operation>, id: string, insert: Operation)
    requires id in t && !t[id].active
    requires insert.Insert? && insert.id == id
    ensures var t' := Run(t, ops);
            && (forall r :: r in AllActive(t') ==> r.id != id)
            && (forall key, r :: r in ByPublicKey(t', key) ==> r.id != id)
            && !Succeeds(t', insert) && After(t', insert) == t'
  {
    RowsPersist(t, ops);
  }

  /** What was inserted under a new id is found unchanged for as long as the id is not deactivated. */
  lemma RegistrationIsFound(t: Table, ops: seq<Operation>, r: Registration)
    requires r.id !in t && Operation.Deactivate(r.id) !in ops
    ensures var t' := Run(After(t, Insert(r.id, r.publicKey, r.url, r.secretHash, r.createdAt)), ops);
            && r in AllActive(t')
            && Listing(r.id, r.publicKey, r.url, r.createdAt) in ByPublicKey(t', r.publicKey)
  {
    var inserted := After(t, Insert(r.id, r.publicKey, r.url, r.secretHash, r.createdAt));
    StaysActive(inserted, ops, r.id);
    var t' := Run(inserted, ops);
    assert View(r.id, t'[r.id]) == r;
  }

  lemma {:induction false} StaysActive(t: Table, ops: seq<Operation>, id: string)
    requires IsActive(t, id) && Operation.Deactivate(id) !in ops
    ensures id in Run(t, ops) && Run(t, ops)[id] == t[id]
    decreases |ops|
  {
    if ops != [] {
      StaysActive(t, ops[..|ops| - 1], id);
      assert ops[|ops| - 1] in ops;
    }
  }
}
