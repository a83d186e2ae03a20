/** `EncryptionKeyInjector`: bootstraps the master key (KEK) and the keyring at
    application startup, and injects the decrypted data keys (DEKs) into the session
    of every connection the pool hands out. */
module Injector {
  import opened Wrappers
  import opened Base64
  import opened Decimal
  import opened Keyring
  import opened Transit
  import opened Session

  /** Name of the key encryption key in the transit engine. */
  const KekName := "postcryptic.kek"
  /** Session setting holding the DEK of keyring row `id` is this prefix followed by `id`. */
  const DekSettingPrefix := "postcryptic.dekid"
  /** Session setting holding the id of the DEK that new writes use. */
  const CurrentKeySetting := "postcryptic.currentkey"

  /** Name of the session setting that holds the DEK of row `id`. */
  function DekSetting(id: nat): (name: string)
    ensures name != CurrentKeySetting
    ensures |DekSettingPrefix| < |name| && name[..|DekSettingPrefix|] == DekSettingPrefix
  {
    var name := DekSettingPrefix + NatToString(id);
    assert name[12] == 'd' && CurrentKeySetting[12] == 'c';
    name
  }

  /** Different rows get different session settings. */
  lemma DekSettingInjective(a: nat, b: nat)
    requires DekSetting(a) == DekSetting(b)
    ensures a == b
  {
    var n := |DekSettingPrefix|;
    assert DekSetting(a)[n..] == NatToString(a);
    assert DekSetting(b)[n..] == NatToString(b);
    NatToStringInjective(a, b);
  }

  /** `createRandomDek`: the Base64 text of 16 random octets. The octets stand for
      what `SecureRandom.nextBytes` produced. */
  function CreateRandomDek(keyBytes: seq<Byte>): (dek: string)
    requires |keyBytes| == 16
    ensures |dek| == 24 && dek[22..] == "=="
    ensures forall i :: 0 <= i < 22 ==> IsAlphabetChar(dek[i])
    ensures Decode(dek) == Some(keyBytes)
  {
    EncodeShape(keyBytes);
    DecodeEncode(keyBytes);
    var dek := Encode(keyBytes);
    SixteenOctetShape(dek, |keyBytes|);
    dek
  }

  /** The shape EncodeShape gives, worked out for 16 octets. */
  lemma SixteenOctetShape(text: string, n: nat)
    requires n == 16 && |text| == 4 * ((n + 2) / 3) && PadCount(n) <= |text|
    requires forall i :: 0 <= i < |text| - PadCount(n) ==> IsAlphabetChar(text[i])
    requires forall i :: |text| - PadCount(n) <= i < |text| ==> text[i] == Pad
    ensures |text| == 24 && text[22..] == "=="
    ensures forall i :: 0 <= i < 22 ==> IsAlphabetChar(text[i])
  {
    assert PadCount(n) == 2;
    assert text[22..] == [text[22], text[23]];
  }

  /** The keyring after `initialize`, given what encrypting the fresh DEK returned
      (consulted only when no row is active). */
  function BootstrapRows(rows: seq<KeyringRow>, nextId: nat, encrypted: Option<string>): seq<KeyringRow> {
    if HasActiveRow(rows) || encrypted.None? then rows
    else rows + [KeyringRow(nextId, encrypted.value, true)]
  }

  /** Requests `initialize` sends to the transit engine. */
  function InitializeCalls(hadKek: bool, hadActiveRow: bool, dek: string): seq<TransitCall> {
    [ReadKeyCall(KekName)]
      + (if hadKek then [] else [CreateKeyCall(KekName)])
      + (if hadActiveRow then [] else [EncryptCall(KekName, dek)])
  }

  /** A successful bootstrap leaves an active row, and bootstrapping again then adds
      nothing, whatever the second encryption would return. */
  lemma BootstrapIdempotent(rows: seq<KeyringRow>, nextId: nat, encrypted: Option<string>,
                            laterId: nat, laterEncrypted: Option<string>)
    requires HasActiveRow(rows) || encrypted.Some?
    ensures HasActiveRow(BootstrapRows(rows, nextId, encrypted))
    ensures BootstrapRows(BootstrapRows(rows, nextId, encrypted), laterId, laterEncrypted)
            == BootstrapRows(rows, nextId, encrypted)
  {
    var after := BootstrapRows(rows, nextId, encrypted);
    if !HasActiveRow(rows) {
      assert after[|after| - 1].active;
    }
  }

  /** Bootstrap only appends: existing rows are kept, and at most one row is added,
      active, carrying the encrypted DEK and the next id. */
  lemma BootstrapAppendsOnly(rows: seq<KeyringRow>, nextId: nat, encrypted: Option<string>)
    requires Ascending(rows) && forall i :: 0 <= i < |rows| ==> rows[i].id < nextId
    ensures var after := BootstrapRows(rows, nextId, encrypted);
            Ascending(after) &&
            after[..|rows|] == rows &&
            (|after| == |rows| || (|after| == |rows| + 1 && after[|rows|] == KeyringRow(nextId, encrypted.value, true)))
  {
  }

  /** The per-key assignments queued for the first `n` of `rows`, or `None` if one
      of their decryptions throws. */
  function DekAssignments(decrypt: (string, string) -> Option<string>, rows: seq<KeyringRow>, n: nat): Option<seq<Setting>>
    requires n <= |rows|
    decreases n
  {
    if n == 0 then Some([])
    else
      match DekAssignments(decrypt, rows, n - 1)
      case None => None
      case Some(prefix) =>
        match decrypt(KekName, rows[n - 1].dek)
        case None => None
        case Some(dek) => Some(prefix + [Setting(DekSetting(rows[n - 1].id), dek)])
  }

  /** The assignments exist exactly when every row decrypts, and then there is one
      per row, in row order, holding that row's decrypted DEK. */
  lemma {:induction false} DekAssignmentsSpec(decrypt: (string, string) -> Option<string>, rows: seq<KeyringRow>, n: nat)
    requires n <= |rows|
    ensures DekAssignments(decrypt, rows, n).Some? <==> forall i :: 0 <= i < n ==> decrypt(KekName, rows[i].dek).Some?
    ensures DekAssignments(decrypt, rows, n).Some? ==> |DekAssignments(decrypt, rows, n).value| == n
    ensures DekAssignments(decrypt, rows, n).Some? ==> forall i :: 0 <= i < n ==>
              DekAssignments(decrypt, rows, n).value[i] == Setting(DekSetting(rows[i].id), decrypt(KekName, rows[i].dek).value)
    decreases n
  {
    if n > 0 {
      DekAssignmentsSpec(decrypt, rows, n - 1);
    }
  }

  /** The decryption requests the injection loop sends for the first `n` of `rows`:
      one per row in order, up to and including the first one that throws. */
  function DecryptCalls(decrypt: (string, string) -> Option<string>, rows: seq<KeyringRow>, n: nat): seq<TransitCall>
    requires n <= |rows|
    decreases n
  {
    if n == 0 then []
    else if DekAssignments(decrypt, rows, n - 1).None? then DecryptCalls(decrypt, rows, n - 1)
    else DecryptCalls(decrypt, rows, n - 1) + [DecryptCall(KekName, rows[n - 1].dek)]
  }

  /** One request per row while every row decrypts; otherwise the requests stop at
      the first row whose decryption throws, every earlier one having succeeded. */
  lemma {:induction false} DecryptCallsCount(decrypt: (string, string) -> Option<string>, rows: seq<KeyringRow>, n: nat)
    requires n <= |rows|
    ensures DekAssignments(decrypt, rows, n).Some? ==> |DecryptCalls(decrypt, rows, n)| == n
    ensures DekAssignments(decrypt, rows, n).None? ==>
              var k := |DecryptCalls(decrypt, rows, n)|;
              && 0 < k <= n
              && DekAssignments(decrypt, rows, k - 1).Some?
              && decrypt(KekName, rows[k - 1].dek).None?
    decreases n
  {
    if n > 0 {
      DecryptCallsCount(decrypt, rows, n - 1);
    }
  }

  /** The requests are the decryptions of the first rows, in row order. */
  lemma {:induction false} DecryptCallsInOrder(decrypt: (string, string) -> Option<string>, rows: seq<KeyringRow>, n: nat)
    requires n <= |rows|
    ensures |DecryptCalls(decrypt, rows, n)| <= n
    ensures forall i :: 0 <= i < |DecryptCalls(decrypt, rows, n)| ==>
              DecryptCalls(decrypt, rows, n)[i] == DecryptCall(KekName, rows[i].dek)
    decreases n
  {
    if n > 0 {
      var calls, prev := DecryptCalls(decrypt, rows, n), DecryptCalls(decrypt, rows, n - 1);
      DecryptCallsInOrder(decrypt, rows, n - 1);
      if DekAssignments(decrypt, rows, n - 1).Some? {
        DecryptCallsCount(decrypt, rows, n - 1);
        assert calls == prev + [DecryptCall(KekName, rows[n - 1].dek)];
        forall i | 0 <= i < |calls|
          ensures calls[i] == DecryptCall(KekName, rows[i].dek)
        {
          if i < |prev| {
            assert calls[i] == prev[i];
          }
        }
      }
    }
  }

  /** The requests are a prefix of the rows' decryptions: all of them when every row
      decrypts, otherwise those up to and including the first one that throws. */
  lemma DecryptCallsSpec(decrypt: (string, string) -> Option<string>, rows: seq<KeyringRow>, n: nat)
    requires n <= |rows|
    ensures |DecryptCalls(decrypt, rows, n)| <= n
    ensures forall i :: 0 <= i < |DecryptCalls(decrypt, rows, n)| ==>
              DecryptCalls(decrypt, rows, n)[i] == DecryptCall(KekName, rows[i].dek)
    ensures (forall i :: 0 <= i < n ==> decrypt(KekName, rows[i].dek).Some?) ==> |DecryptCalls(decrypt, rows, n)| == n
    ensures !(forall i :: 0 <= i < n ==> decrypt(KekName, rows[i].dek).Some?) ==>
              var k := |DecryptCalls(decrypt, rows, n)|;
              && 0 < k
              && decrypt(KekName, rows[k - 1].dek).None?
              && forall i :: 0 <= i < k - 1 ==> decrypt(KekName, rows[i].dek).Some?
  {
    DecryptCallsInOrder(decrypt, rows, n);
    DecryptCallsCount(decrypt, rows, n);
    DekAssignmentsSpec(decrypt, rows, n);
    var k := |DecryptCalls(decrypt, rows, n)|;
    if DekAssignments(decrypt, rows, n).None? {
      DekAssignmentsSpec(decrypt, rows, k - 1);
    }
  }

  /** The whole batch queued for the active rows `rows` (ascending id order): one
      assignment per row, then the current key, which is the last id; `None` if a
      decryption throws, in which case nothing is executed. */
  function InjectionBatch(decrypt: (string, string) -> Option<string>, rows: seq<KeyringRow>): Option<seq<Setting>> {
    match DekAssignments(decrypt, rows, |rows|)
    case None => None
    case Some(assignments) =>
      if rows == [] then Some(assignments)
      else Some(assignments + [Setting(CurrentKeySetting, NatToString(rows[|rows| - 1].id))])
  }

  /** The batch exists exactly when every row decrypts; it is empty when no row is
      active, and otherwise holds one assignment per row, in ascending id order,
      followed by the current key set to the last (largest) id. */
  lemma InjectionBatchShape(decrypt: (string, string) -> Option<string>, rows: seq<KeyringRow>)
    ensures var r := InjectionBatch(decrypt, rows);
            && (r.Some? <==> forall i :: 0 <= i < |rows| ==> decrypt(KekName, rows[i].dek).Some?)
            && (rows == [] ==> r == Some([]))
            && (r.Some? && rows != [] ==>
                  && |r.value| == |rows| + 1
                  && (forall i :: 0 <= i < |rows| ==>
                        r.value[i] == Setting(DekSetting(rows[i].id), decrypt(KekName, rows[i].dek).value))
                  && r.value[|rows|] == Setting(CurrentKeySetting, NatToString(rows[|rows| - 1].id)))
  {
    DekAssignmentsSpec(decrypt, rows, |rows|);
  }

  /** Session settings the injection assigns for the keyring `rows`: one per active
      row, and the current key when some row is active. */
  ghost function InjectedNames(rows: seq<KeyringRow>): set<string> {
    (set row | row in rows && row.active :: DekSetting(row.id))
      + (if HasActiveRow(rows) then {CurrentKeySetting} else {})
  }

  /** No setting is queued twice, so the batch sets exactly |active| + 1 settings
      (none when no row is active). */
  lemma BatchNamesDistinct(decrypt: (string, string) -> Option<string>, active: seq<KeyringRow>, batch: seq<Setting>)
    requires Ascending(active)
    requires InjectionBatch(decrypt, active) == Some(batch)
    ensures forall i, j :: 0 <= i < j < |batch| ==> batch[i].name != batch[j].name
  {
    InjectionBatchShape(decrypt, active);
    forall i, j | 0 <= i < j < |batch| ensures batch[i].name != batch[j].name {
      if j < |active| && batch[i].name == batch[j].name {
        DekSettingInjective(active[i].id, active[j].id);
      }
    }
  }

  /** Every injected name is queued. */
  lemma InjectedNamesAreQueued(decrypt: (string, string) -> Option<string>, table: seq<KeyringRow>, batch: seq<Setting>)
    requires InjectionBatch(decrypt, ActiveRows(table)) == Some(batch)
    ensures forall name :: name in InjectedNames(table) ==> exists j :: 0 <= j < |batch| && batch[j].name == name
  {
    var active := ActiveRows(table);
    InjectionBatchShape(decrypt, active);
    forall name | name in InjectedNames(table)
      ensures exists j :: 0 <= j < |batch| && batch[j].name == name
    {
      if name == CurrentKeySetting {
        assert HasActiveRow(table);
        assert batch[|active|].name == name;
      } else {
        var row :| row in table && row.active && name == DekSetting(row.id);
        assert row in active;
        var k :| 0 <= k < |active| && active[k] == row;
        assert batch[k].name == name;
      }
    }
  }

  /** Every queued name is an injected name. */
  lemma QueuedNamesAreInjected(decrypt: (string, string) -> Option<string>, table: seq<KeyringRow>, batch: seq<Setting>)
    requires InjectionBatch(decrypt, ActiveRows(table)) == Some(batch)
    ensures forall j :: 0 <= j < |batch| ==> batch[j].name in InjectedNames(table)
  {
    var active := ActiveRows(table);
    InjectionBatchShape(decrypt, active);
    forall j | 0 <= j < |batch| ensures batch[j].name in InjectedNames(table) {
      if j < |active| {
        assert active[j] in active;
      } else {
        assert active[0] in active;
      }
    }
  }

  /** Every queued name is an injected name, and every injected name is queued. */
  lemma BatchNamesAreInjectedNames(decrypt: (string, string) -> Option<string>, table: seq<KeyringRow>, batch: seq<Setting>)
    requires InjectionBatch(decrypt, ActiveRows(table)) == Some(batch)
    ensures forall name :: name in InjectedNames(table) <==> exists j :: 0 <= j < |batch| && batch[j].name == name
  {
    InjectedNamesAreQueued(decrypt, table, batch);
    QueuedNamesAreInjected(decrypt, table, batch);
  }

  /** After a successful injection the session holds exactly its old settings plus
      the injected names. */
  lemma InjectedKeys(decrypt: (string, string) -> Option<string>, table: seq<KeyringRow>,
                     session: map<string, string>, batch: seq<Setting>)
    requires InjectionBatch(decrypt, ActiveRows(table)) == Some(batch)
    ensures ApplyBatch(session, batch).Keys == session.Keys + InjectedNames(table)
  {
    BatchNamesAreInjectedNames(decrypt, table, batch);
  }

  /** Each active row's setting holds that row's decrypted DEK. */
  lemma InjectedDeks(decrypt: (string, string) -> Option<string>, table: seq<KeyringRow>,
                     session: map<string, string>, batch: seq<Setting>)
    requires Ascending(table)
    requires InjectionBatch(decrypt, ActiveRows(table)) == Some(batch)
    ensures forall row :: row in table && row.active ==>
              DekSetting(row.id) in ApplyBatch(session, batch) &&
              decrypt(KekName, row.dek) == Some(ApplyBatch(session, batch)[DekSetting(row.id)])
  {
    var active := ActiveRows(table);
    InjectionBatchShape(decrypt, active);
    ActiveRowsAscending(table);
    BatchNamesDistinct(decrypt, active, batch);
    forall row | row in table && row.active
      ensures DekSetting(row.id) in ApplyBatch(session, batch)
      ensures decrypt(KekName, row.dek) == Some(ApplyBatch(session, batch)[DekSetting(row.id)])
    {
      assert row in active;
      var k :| 0 <= k < |active| && active[k] == row;
      ApplyBatchLastWins(session, batch, k);
    }
  }

  /** The current key is the largest id among the active rows. */
  lemma InjectedCurrentKey(decrypt: (string, string) -> Option<string>, table: seq<KeyringRow>,
                           session: map<string, string>, batch: seq<Setting>)
    requires Ascending(table)
    requires InjectionBatch(decrypt, ActiveRows(table)) == Some(batch)
    requires HasActiveRow(table)
    ensures CurrentKeySetting in ApplyBatch(session, batch)
    ensures exists row :: row in table && row.active &&
              ApplyBatch(session, batch)[CurrentKeySetting] == NatToString(row.id) &&
              forall other :: other in table && other.active ==> other.id <= row.id
  {
    var active := ActiveRows(table);
    InjectionBatchShape(decrypt, active);
    LastActiveIsMax(table);
    ApplyBatchLastWins(session, batch, |active|);
    assert active[|active| - 1] in table;
  }

  /** Settings the injection does not name keep their values. */
  lemma InjectionLeavesOthers(decrypt: (string, string) -> Option<string>, table: seq<KeyringRow>,
                              session: map<string, string>, batch: seq<Setting>)
    requires InjectionBatch(decrypt, ActiveRows(table)) == Some(batch)
    ensures forall name :: name in session && name !in InjectedNames(table) ==>
              ApplyBatch(session, batch)[name] == session[name]
  {
    BatchNamesAreInjectedNames(decrypt, table, batch);
    forall name | name in session && name !in InjectedNames(table)
      ensures ApplyBatch(session, batch)[name] == session[name]
    {
      ApplyBatchUntouched(session, batch, name);
    }
  }

  /** An inactive row is never injected: its setting keeps whatever value the session
      already had, even when its id is the largest in the table. */
  lemma InactiveRowNotInjected(decrypt: (string, string) -> Option<string>, table: seq<KeyringRow>,
                               session: map<string, string>, batch: seq<Setting>, row: KeyringRow)
    requires Ascending(table)
    requires InjectionBatch(decrypt, ActiveRows(table)) == Some(batch)
    requires row in table && !row.active
    ensures DekSetting(row.id) !in InjectedNames(table)
    ensures DekSetting(row.id) in ApplyBatch(session, batch) <==> DekSetting(row.id) in session
    ensures DekSetting(row.id) in session ==> ApplyBatch(session, batch)[DekSetting(row.id)] == session[DekSetting(row.id)]
  {
    if DekSetting(row.id) in InjectedNames(table) {
      var other :| other in table && other.active && DekSetting(row.id) == DekSetting(other.id);
      DekSettingInjective(row.id, other.id);
      AscendingIdsUnique(table, row, other);
    }
    InjectedKeys(decrypt, table, session, batch);
    InjectionLeavesOthers(decrypt, table, session, batch);
  }

  /** The batch queued for a keyring of one active row. */
  lemma SingleRowBatch(decrypt: (string, string) -> Option<string>, row: KeyringRow, dek: string)
    requires decrypt(KekName, row.dek) == Some(dek)
    ensures InjectionBatch(decrypt, [row])
            == Some([Setting(DekSetting(row.id), dek), Setting(CurrentKeySetting, NatToString(row.id))])
  {
    var first := Setting(DekSetting(row.id), dek);
    assert DekAssignments(decrypt, [row], 1) == Some([] + [first]);
    assert [] + [first] + [Setting(CurrentKeySetting, NatToString(row.id))]
           == [first, Setting(CurrentKeySetting, NatToString(row.id))];
  }

  /** End to end: when startup finds an empty keyring and the engine decrypts what it
      encrypts, the next connection gets exactly two settings added or replaced: the
      fresh DEK under the new row's id, and that id as the current key. */
  lemma BootstrapThenInject(encrypt: (string, string) -> Option<string>, decrypt: (string, string) -> Option<string>,
                            nextId: nat, keyBytes: seq<Byte>, session: map<string, string>)
    requires |keyBytes| == 16
    requires forall p :: encrypt(KekName, p).Some? ==> decrypt(KekName, encrypt(KekName, p).value) == Some(p)
    requires encrypt(KekName, CreateRandomDek(keyBytes)).Some?
    ensures var table := BootstrapRows([], nextId, encrypt(KekName, CreateRandomDek(keyBytes)));
            var batch := InjectionBatch(decrypt, ActiveRows(table));
            && batch.Some?
            && ApplyBatch(session, batch.value)
               == session[DekSetting(nextId) := CreateRandomDek(keyBytes)][CurrentKeySetting := NatToString(nextId)]
  {
    var dek := CreateRandomDek(keyBytes);
    var row := KeyringRow(nextId, encrypt(KekName, dek).value, true);
    assert BootstrapRows([], nextId, encrypt(KekName, dek)) == [row];
    assert ActiveRows([row]) == [row];
    SingleRowBatch(decrypt, row, dek);
    ApplyTwo(session, Setting(DekSetting(nextId), dek), Setting(CurrentKeySetting, NatToString(nextId)));
  }

  /** Once a decryption has thrown, later rows change neither the outcome nor the
      requests sent. */
  lemma {:induction false} FailureIsFinal(decrypt: (string, string) -> Option<string>, rows: seq<KeyringRow>, k: nat, n: nat)
    requires k < n <= |rows|
    requires DekAssignments(decrypt, rows, k + 1).None?
    ensures DekAssignments(decrypt, rows, n).None?
    ensures DecryptCalls(decrypt, rows, n) == DecryptCalls(decrypt, rows, k + 1)
    decreases n
  {
    if k + 1 < n {
      FailureIsFinal(decrypt, rows, k, n - 1);
    }
  }

  /** The row whose decryption throws is the last request, and no batch results. */
  lemma DecryptFails(decrypt: (string, string) -> Option<string>, rows: seq<KeyringRow>, i: nat)
    requires i < |rows|
    requires DekAssignments(decrypt, rows, i).Some?
    requires decrypt(KekName, rows[i].dek).None?
    ensures InjectionBatch(decrypt, rows).None?
    ensures DecryptCalls(decrypt, rows, |rows|) == DecryptCalls(decrypt, rows, i) + [DecryptCall(KekName, rows[i].dek)]
  {
    FailureIsFinal(decrypt, rows, i, |rows|);
  }

  /** The injector bean: the transit engine and the keyring it was given, and the
      one-way flag that tells whether startup bootstrap has completed. */
  class EncryptionKeyInjector {
    const transit: TransitEngine
    const keyring: KeyringTable
    var isInitialized: bool

    constructor (transit: TransitEngine, keyring: KeyringTable)
      ensures this.transit == transit && this.keyring == keyring
      ensures !isInitialized
    {
      this.transit := transit;
      this.keyring := keyring;
      isInitialized := false;
    }

    /** `onApplicationStartup`: bootstraps, then sets the flag; when `initialize`
        throws, the exception leaves the method and the flag keeps its value. */
    method OnApplicationStartup(keyBytes: seq<Byte>) returns (outcome: Outcome)
      requires |keyBytes| == 16
      requires keyring.Valid()
      modifies this`isInitialized, transit, keyring
      ensures keyring.Valid()
      ensures isInitialized == (old(isInitialized) || outcome.Completed?)
      ensures transit.keys == if KekName in old(transit.keys) then old(transit.keys) else old(transit.keys)[KekName := 1]
      ensures transit.calls == old(transit.calls)
                + InitializeCalls(KekName in old(transit.keys), HasActiveRow(old(keyring.rows)), CreateRandomDek(keyBytes))
      ensures keyring.rows == BootstrapRows(old(keyring.rows), old(keyring.nextId),
                                            transit.encryption(KekName, CreateRandomDek(keyBytes)))
      ensures outcome.Threw? <==>
                !HasActiveRow(old(keyring.rows)) && transit.encryption(KekName, CreateRandomDek(keyBytes)).None?
      ensures outcome.Completed? ==> HasActiveRow(keyring.rows)
    {
      outcome := Initialize(keyBytes);
      if outcome.Completed? {
        isInitialized := true;
      }
    }

    /** `initialize`: creates the KEK if the engine has none, then adds one encrypted
        DEK to the keyring unless an active row exists. */
    method Initialize(keyBytes: seq<Byte>) returns (outcome: Outcome)
      requires |keyBytes| == 16
      requires keyring.Valid()
      modifies transit, keyring
      ensures keyring.Valid()
      ensures transit.keys == if KekName in old(transit.keys) then old(transit.keys) else old(transit.keys)[KekName := 1]
      ensures transit.calls == old(transit.calls)
                + InitializeCalls(KekName in old(transit.keys), HasActiveRow(old(keyring.rows)), CreateRandomDek(keyBytes))
      ensures keyring.rows == BootstrapRows(old(keyring.rows), old(keyring.nextId),
                                            transit.encryption(KekName, CreateRandomDek(keyBytes)))
      ensures outcome.Threw? <==>
                !HasActiveRow(old(keyring.rows)) && transit.encryption(KekName, CreateRandomDek(keyBytes)).None?
      ensures outcome.Completed? ==> HasActiveRow(keyring.rows)
    {
      ghost var kekCalls := [ReadKeyCall(KekName)] + (if KekName in transit.keys then [] else [CreateKeyCall(KekName)]);
      var key := transit.ReadKey(KekName);
      if key.None? {
        transit.CreateKey(KekName);
      }
      assert transit.calls == old(transit.calls) + kekCalls;

      if HasActiveRow(keyring.rows) {
        assert kekCalls == InitializeCalls(KekName in old(transit.keys), true, CreateRandomDek(keyBytes));
        return Completed;
      }

      var dek := CreateRandomDek(keyBytes);
      var encryptedDek := transit.Encrypt(KekName, dek);
      if encryptedDek.None? {
        return Threw("encrypting the new DEK failed");
      }
      keyring.Insert(encryptedDek.value);
      assert keyring.rows[|keyring.rows| - 1].active;
      outcome := Completed;
    }

    /** `onConnectionAcquire`: before bootstrap has completed it does nothing;
        afterwards it queues one assignment per active row and the current key, and
        executes the batch once every DEK has been decrypted. A decryption that
        throws is caught: nothing is executed and the call returns normally.
        Returns the DEK count the method logs, or `None` when it logs none. */
    method OnConnectionAcquire(conn: Connection) returns (injected: Option<nat>)
      requires conn.keyring.Valid()
      modifies conn`session, conn`roundTrips, transit`calls
      ensures !isInitialized ==>
                injected == None && conn.session == old(conn.session) &&
                conn.roundTrips == old(conn.roundTrips) && transit.calls == old(transit.calls)
      ensures isInitialized ==>
                var active := ActiveRows(conn.keyring.rows);
                var batch := InjectionBatch(transit.decryption, active);
                && transit.calls == old(transit.calls) + DecryptCalls(transit.decryption, active, |active|)
                && conn.session == (if batch.Some? then ApplyBatch(old(conn.session), batch.value) else old(conn.session))
                && conn.roundTrips == old(conn.roundTrips) + (if batch.Some? then 2 else 1)
                && injected == (if batch.Some? then Some(|active|) else None)
    {
      if !isInitialized {
        return None;
      }

      var rows := conn.QueryActiveKeys();
      var assignments, count, id := DecryptDeks(rows);
      if assignments.None? {
        return None;
      }
      var batch := assignments.value;
      if id.Some? {
        batch := batch + [Setting(CurrentKeySetting, NatToString(id.value))];
      }
      conn.ExecuteBatch(batch);
      injected := Some(count);
    }

    /** The loop of `onConnectionAcquire`: decrypts the DEK of each row in order,
        remembering the id of the latest row and counting the assignments queued;
        it stops at the first decryption that throws. */
    method DecryptDeks(rows: seq<KeyringRow>) returns (assignments: Option<seq<Setting>>, count: nat, id: Option<nat>)
      modifies transit`calls
      ensures assignments == DekAssignments(transit.decryption, rows, |rows|)
      ensures assignments.Some? ==> count == |rows| && id == (if rows == [] then None else Some(rows[|rows| - 1].id))
      ensures transit.calls == old(transit.calls) + DecryptCalls(transit.decryption, rows, |rows|)
    {
      count := 0;
      id := None;
      var batch: seq<Setting> := [];
      var i := 0;
      while i < |rows|
        invariant 0 <= i <= |rows|
        invariant count == i
        invariant id == if i == 0 then None else Some(rows[i - 1].id)
        invariant DekAssignments(transit.decryption, rows, i) == Some(batch)
        invariant transit.calls == old(transit.calls) + DecryptCalls(transit.decryption, rows, i)
      {
        var row := rows[i];
        id := Some(row.id);
        var dek := transit.Decrypt(KekName, row.dek);
        if dek.None? {
          DecryptFails(transit.decryption, rows, i);
          return None, count, id;
        }
        batch := batch + [Setting(DekSetting(row.id), dek.value)];
        count := count + 1;
        i := i + 1;
      }
      assignments := Some(batch);
    }
  }
}
