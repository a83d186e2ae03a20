/** A pooled database connection: the keyring it can query and its session-scoped
    settings, which `set_config(name, value, false)` assigns. */
module Session {
  import opened Keyring

  /** One queued `set_config(name, value, false)`. */
  datatype Setting = Setting(name: string, value: string)

  /** Session settings after a batch of assignments runs in order. */
  function ApplyBatch(session: map<string, string>, batch: seq<Setting>): (r: map<string, string>)
    ensures forall name :: name in r <==> name in session || exists j :: 0 <= j < |batch| && batch[j].name == name
    decreases |batch|
  {
    if batch == [] then session
    else
      var last := batch[|batch| - 1];
      ApplyBatch(session, batch[..|batch| - 1])[last.name := last.value]
  }

  /** A batch of two assignments performs them in order. */
  lemma ApplyTwo(session: map<string, string>, first: Setting, second: Setting)
    ensures ApplyBatch(session, [first, second]) == session[first.name := first.value][second.name := second.value]
  {
    assert [first, second][..1] == [first] && [first][..0] == [];
    assert ApplyBatch(session, [first]) == ApplyBatch(session, [])[first.name := first.value];
  }

  /** The last assignment to a name decides its value. */
  lemma {:induction false} ApplyBatchLastWins(session: map<string, string>, batch: seq<Setting>, k: nat)
    requires k < |batch|
    requires forall j :: k < j < |batch| ==> batch[j].name != batch[k].name
    ensures batch[k].name in ApplyBatch(session, batch)
    ensures ApplyBatch(session, batch)[batch[k].name] == batch[k].value
    decreases |batch|
  {
    if k < |batch| - 1 {
      ApplyBatchLastWins(session, batch[..|batch| - 1], k);
    }
  }

  /** A name the batch never assigns keeps its value. */
  lemma {:induction false} ApplyBatchUntouched(session: map<string, string>, batch: seq<Setting>, name: string)
    requires forall j :: 0 <= j < |batch| ==> batch[j].name != name
    ensures name in ApplyBatch(session, batch) <==> name in session
    ensures name in session ==> ApplyBatch(session, batch)[name] == session[name]
    decreases |batch|
  {
    if batch != [] {
      ApplyBatchUntouched(session, batch[..|batch| - 1], name);
    }
  }

  class Connection {
    /** The keyring table this connection's queries read. */
    const keyring: KeyringTable
    /** Session-scoped settings of this connection. */
    var session: map<string, string>
    /** Statements sent to the database over this connection. */
    var roundTrips: nat

    constructor (keyring: KeyringTable)
      ensures this.keyring == keyring && session == map[] && roundTrips == 0
    {
      this.keyring := keyring;
      session := map[];
      roundTrips := 0;
    }

    /** `SELECT id, dek FROM postcryptic_keyring WHERE active = true ORDER BY id ASC`. */
    method QueryActiveKeys() returns (rows: seq<KeyringRow>)
      requires keyring.Valid()
      modifies this`roundTrips
      ensures rows == ActiveRows(keyring.rows) && Ascending(rows)
      ensures roundTrips == old(roundTrips) + 1
    {
      ActiveRowsAscending(keyring.rows);
      rows := ActiveRows(keyring.rows);
      roundTrips := roundTrips + 1;
    }

    /** `executeBatch`: the queued assignments run in order. */
    method ExecuteBatch(batch: seq<Setting>)
      modifies this`session, this`roundTrips
      ensures session == ApplyBatch(old(session), batch)
      ensures roundTrips == old(roundTrips) + 1
    {
      session := ApplyBatch(session, batch);
      roundTrips := roundTrips + 1;
    }
  }
}
