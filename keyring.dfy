/** The `postcryptic_keyring` table: rows of (id, encrypted DEK, active flag), with
    ids assigned in ascending order by the database. */
module Keyring {

  datatype KeyringRow = KeyringRow(id: nat, dek: string, active: bool)

  /** Rows are kept in strictly ascending id order. */
  predicate Ascending(rows: seq<KeyringRow>) {
    forall i, j :: 0 <= i < j < |rows| ==> rows[i].id < rows[j].id
  }

  /** `SELECT id, dek FROM postcryptic_keyring WHERE active = true ORDER BY id ASC`
      over a table held in id order: the active rows, in table order. */
  function ActiveRows(rows: seq<KeyringRow>): (r: seq<KeyringRow>)
    ensures forall x :: x in r <==> x in rows && x.active
    ensures |r| <= |rows|
    decreases |rows|
  {
    if rows == [] then []
    else (if rows[0].active then [rows[0]] else []) + ActiveRows(rows[1..])
  }

  /** The existence probe `hasResults(em, "SELECT dek FROM postcryptic_keyring WHERE
      active = true")`: some row is active. */
  function HasActiveRow(rows: seq<KeyringRow>): (b: bool)
    ensures b <==> exists i :: 0 <= i < |rows| && rows[i].active
  {
    var active := ActiveRows(rows);
    if active == [] then false
    else
      assert active[0] in rows;
      true
  }

  /** Filtering keeps the id order. */
  lemma {:induction false} ActiveRowsAscending(rows: seq<KeyringRow>)
    requires Ascending(rows)
    ensures Ascending(ActiveRows(rows))
    decreases |rows|
  {
    if rows != [] {
      var tail := rows[1..];
      ActiveRowsAscending(tail);
      var r := ActiveRows(rows);
      var rest := ActiveRows(tail);
      if rows[0].active {
        assert r == [rows[0]] + rest;
        forall j | 0 <= j < |rest| ensures rows[0].id < rest[j].id {
          assert rest[j] in tail;
        }
      } else {
        assert r == rest;
      }
    }
  }

  /** In ascending order the last row has the largest id. */
  lemma LastIsMax(rows: seq<KeyringRow>, x: KeyringRow)
    requires Ascending(rows) && x in rows
    ensures x.id <= rows[|rows| - 1].id
  {
    var k :| 0 <= k < |rows| && rows[k] == x;
    assert k == |rows| - 1 || rows[k].id < rows[|rows| - 1].id;
  }

  /** The last active row, in ascending order, has the largest id among the active rows. */
  lemma LastActiveIsMax(rows: seq<KeyringRow>)
    requires Ascending(rows)
    requires HasActiveRow(rows)
    ensures var active := ActiveRows(rows);
            active != [] && active[|active| - 1] in rows && active[|active| - 1].active &&
            forall x :: x in rows && x.active ==> x.id <= active[|active| - 1].id
  {
    ActiveRowsAscending(rows);
    var active := ActiveRows(rows);
    assert active != [];
    assert active[|active| - 1] in active;
    forall x | x in rows && x.active ensures x.id <= active[|active| - 1].id {
      LastIsMax(active, x);
    }
  }

  /** Ids are unique in an ascending table, so a row is identified by its id. */
  lemma AscendingIdsUnique(rows: seq<KeyringRow>, x: KeyringRow, y: KeyringRow)
    requires Ascending(rows)
    requires x in rows && y in rows && x.id == y.id
    ensures x == y
  {
    var i :| 0 <= i < |rows| && rows[i] == x;
    var j :| 0 <= j < |rows| && rows[j] == y;
    assert !(i < j) && !(j < i);
  }

  /** The keyring table as the application sees it through its entity manager. */
  class KeyringTable {
    var rows: seq<KeyringRow>
    /** The next value of the id sequence. */
    var nextId: nat

    ghost predicate Valid()
      reads this
    {
      Ascending(rows) && forall i :: 0 <= i < |rows| ==> rows[i].id < nextId
    }

    constructor (rows: seq<KeyringRow>, nextId: nat)
      requires Ascending(rows) && forall i :: 0 <= i < |rows| ==> rows[i].id < nextId
      ensures Valid() && this.rows == rows && this.nextId == nextId
    {
      this.rows := rows;
      this.nextId := nextId;
    }

    /** `INSERT INTO postcryptic_keyring (dek) VALUES (:dek)`: the id comes from the
        sequence and `active` takes its column default, true. */
    method Insert(dek: string)
      requires Valid()
      modifies this
      ensures Valid()
      ensures rows == old(rows) + [KeyringRow(old(nextId), dek, true)]
      ensures nextId == old(nextId) + 1
    {
      rows := rows + [KeyringRow(nextId, dek, true)];
      nextId := nextId + 1;
    }
  }
}
