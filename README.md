# postcryptic key injector, modelled in Dafny

quarkus-postcryptic keeps application data encrypted inside PostgreSQL. The data
keys (DEKs) are stored in the `postcryptic_keyring` table, encrypted under a key
encryption key (KEK) held by the Vault transit secrets engine. The
`EncryptionKeyInjector` bean has two jobs:

- **Bootstrap at startup** (`onApplicationStartup` / `initialize`). It creates the
  KEK `postcryptic.kek` if Vault has none. If the keyring has no active row, it
  generates a DEK from 16 random octets (Base64 text), encrypts it under the KEK
  and inserts it. On normal return it sets the one-way `isInitialized` flag.
- **Injection per connection** (`onConnectionAcquire`). Nothing happens before the
  flag is set. After that, each connection taken from the pool gets its active
  DEKs, decrypted, as session settings: `postcryptic.dekid<id>` per active row, in
  ascending id order. Then `postcryptic.currentkey` is set to the last id, which
  is the largest. The whole batch runs only after every DEK has been decrypted.
  A decryption that throws is caught, and the session is left untouched.

Modules, one file each:

| file | module | what it holds |
|---|---|---|
| wrappers.dfy | `Wrappers` | `Option`, and `Outcome` for a method that may throw |
| base64.dfy | `Base64` | the RFC 4648 section 4 encoder `createRandomDek` uses, a decoder, the round trip and the output shape |
| decimal.dfy | `Decimal` | decimal text of an id (used in setting names) and its injectivity |
| keyring.dfy | `Keyring` | keyring rows, the active-rows query, the existence probe, and the table as a class with `Insert` |
| transit.dfy | `Transit` | the Vault transit engine as a class: key map, opaque encrypt/decrypt, and a log of requests |
| session.dfy | `Session` | session settings, the effect of a batch of `set_config` calls, and the JDBC connection as a class |
| injector.dfy | `Injector` | the injector class, the functions that specify its batch and requests, and the lemmas about them |

Vault's cryptography is opaque. `TransitEngine.encryption` and
`TransitEngine.decryption` are functions fixed when the engine is built, and
`None` stands for a call that throws. The engine logs every request it receives
(`calls`), and the connection counts the statements it sends (`roundTrips`).
These two counters make the claim "before initialization, acquiring a connection
neither reads the keyring nor decrypts anything" a postcondition.

The random octets of `createRandomDek` are a parameter (`keyBytes`).

## Model

| member | source | states |
|---|---|---|
| Injector.EncryptionKeyInjector.constructor | src/main/java/fi/protonode/postcryptic/EncryptionKeyInjector.java:39 | a new injector starts uninitialized |
| Injector.EncryptionKeyInjector.OnApplicationStartup | src/main/java/fi/protonode/postcryptic/EncryptionKeyInjector.java:42-46 | the flag is set exactly when it was already set or bootstrap completed, and a thrown bootstrap leaves it as it was; the key and keyring effects are those of Initialize |
| Injector.EncryptionKeyInjector.Initialize | src/main/java/fi/protonode/postcryptic/EncryptionKeyInjector.java:89-121 | the KEK is created (version 1) exactly when absent and otherwise the key map is unchanged; the requests sent are read, then create only if absent, then encrypt only if no row was active; the keyring becomes BootstrapRows of the old table; the call throws exactly when no row was active and encryption failed; on completion an active row exists; table validity is kept |
| Injector.EncryptionKeyInjector.OnConnectionAcquire | src/main/java/fi/protonode/postcryptic/EncryptionKeyInjector.java:49-87 | uninitialized: returns with no request to the engine, no statement sent, session unchanged. Initialized: the decryptions requested are DecryptCalls of the active rows; the session becomes ApplyBatch of the InjectionBatch when every DEK decrypts and is otherwise unchanged; one or two statements are sent; the logged count is the number of active rows |
| Injector.EncryptionKeyInjector.DecryptDeks | src/main/java/fi/protonode/postcryptic/EncryptionKeyInjector.java:65-75 | the loop yields DekAssignments of the rows, with `count` equal to the number of rows and `id` equal to the last row's id when it completes; the requests sent are DecryptCalls of the rows |
| Injector.CreateRandomDek | src/main/java/fi/protonode/postcryptic/EncryptionKeyInjector.java:128-133 | the DEK text of 16 octets is 24 characters: 22 from the Base64 alphabet, then `==`; decoding it gives back the 16 octets |
| Injector.BootstrapIdempotent | src/main/java/fi/protonode/postcryptic/EncryptionKeyInjector.java:103-120 | after a bootstrap that left an active row, a second bootstrap adds nothing, whatever its encryption returns |
| Injector.BootstrapAppendsOnly | src/main/java/fi/protonode/postcryptic/EncryptionKeyInjector.java:118-120 | bootstrap keeps the existing rows as a prefix and adds at most one row: active, with the next id and the encrypted DEK; the order stays ascending |
| Injector.DekSetting | src/main/java/fi/protonode/postcryptic/EncryptionKeyInjector.java:72 | a DEK setting name starts with `postcryptic.dekid` and never equals `postcryptic.currentkey` |
| Injector.DekSettingInjective | src/main/java/fi/protonode/postcryptic/EncryptionKeyInjector.java:72 | different ids give different setting names |
| Injector.DekAssignmentsSpec | src/main/java/fi/protonode/postcryptic/EncryptionKeyInjector.java:67-75 | the assignments exist exactly when every row decrypts; then there is one per row, in row order, naming the row's id and holding its decrypted DEK |
| Injector.DecryptCallsCount | src/main/java/fi/protonode/postcryptic/EncryptionKeyInjector.java:67-75 | one decryption request per row when all succeed; otherwise the requests end at the first failing row, and all earlier rows decrypted |
| Injector.DecryptCallsInOrder | src/main/java/fi/protonode/postcryptic/EncryptionKeyInjector.java:67-70 | the k-th request decrypts the k-th row's DEK under the KEK |
| Injector.DecryptCallsSpec | src/main/java/fi/protonode/postcryptic/EncryptionKeyInjector.java:67-86 | the requests are all rows' decryptions when every row decrypts, and otherwise those up to and including the first that throws, in terms of the decrypt function alone |
| Injector.FailureIsFinal | src/main/java/fi/protonode/postcryptic/EncryptionKeyInjector.java:67-86 | after a decryption throws, later rows change neither the outcome nor the requests |
| Injector.DecryptFails | src/main/java/fi/protonode/postcryptic/EncryptionKeyInjector.java:70 | a failing decryption is the last request and leaves no batch |
| Injector.InjectionBatchShape | src/main/java/fi/protonode/postcryptic/EncryptionKeyInjector.java:65-78 | the batch exists exactly when every row decrypts; no active row gives an empty batch; otherwise one assignment per row in id order, then the current key set to the last id |
| Injector.BatchNamesDistinct | src/main/java/fi/protonode/postcryptic/EncryptionKeyInjector.java:72-77 | in the batch for an ascending table, no two assignments name the same setting |
| Injector.InjectedNamesAreQueued | src/main/java/fi/protonode/postcryptic/EncryptionKeyInjector.java:65-78 | every active row's setting, and the current key when a row is active, is assigned by the batch |
| Injector.QueuedNamesAreInjected | src/main/java/fi/protonode/postcryptic/EncryptionKeyInjector.java:65-78 | the batch assigns nothing but active rows' settings and the current key |
| Injector.BatchNamesAreInjectedNames | src/main/java/fi/protonode/postcryptic/EncryptionKeyInjector.java:65-78 | a name is assigned by the batch exactly when it is an injected name |
| Injector.InjectedKeys | src/main/java/fi/protonode/postcryptic/EncryptionKeyInjector.java:82 | after the batch, the session holds exactly its old names plus the injected names |
| Injector.InjectedDeks | src/main/java/fi/protonode/postcryptic/EncryptionKeyInjector.java:67-75 | after the batch, each active row's setting holds that row's decrypted DEK |
| Injector.InjectedCurrentKey | src/main/java/fi/protonode/postcryptic/EncryptionKeyInjector.java:76-78 | after the batch, the current key is the id of an active row, and that id is the largest active id |
| Injector.InjectionLeavesOthers | src/main/java/fi/protonode/postcryptic/EncryptionKeyInjector.java:82 | settings the injection does not name keep their values |
| Injector.InactiveRowNotInjected | src/main/java/fi/protonode/postcryptic/EncryptionKeyInjector.java:63 | an inactive row's setting is never assigned, even when its id is the largest in the table |
| Injector.SingleRowBatch | src/main/java/fi/protonode/postcryptic/EncryptionKeyInjector.java:65-78 | one active row yields exactly its DEK assignment followed by the current key |
| Injector.BootstrapThenInject | src/main/java/fi/protonode/postcryptic/EncryptionKeyInjector.java:103-120 | an empty keyring bootstrapped with an engine that decrypts what it encrypts injects exactly the fresh DEK under the new id, and that id as the current key |
| Keyring.ActiveRows | src/main/java/fi/protonode/postcryptic/EncryptionKeyInjector.java:63 | the query returns exactly the active rows, and no more rows than the table has |
| Keyring.ActiveRowsAscending | src/main/java/fi/protonode/postcryptic/EncryptionKeyInjector.java:63 | the active rows of an ascending table come in ascending id order |
| Keyring.HasActiveRow | src/main/java/fi/protonode/postcryptic/EncryptionKeyInjector.java:123-126 | the probe holds exactly when some row is active |
| Keyring.LastActiveIsMax | src/main/java/fi/protonode/postcryptic/EncryptionKeyInjector.java:66-68 | the last active row visited is an active row of the table with the largest active id |
| Keyring.AscendingIdsUnique | src/main/java/fi/protonode/postcryptic/EncryptionKeyInjector.java:63 | in an ascending table an id identifies one row |
| Keyring.KeyringTable.Insert | src/main/java/fi/protonode/postcryptic/EncryptionKeyInjector.java:118-120 | the insert appends an active row with the next id and the given DEK, and keeps the table ascending |
| Transit.TransitEngine.ReadKey | src/main/java/fi/protonode/postcryptic/EncryptionKeyInjector.java:93 | reports the key's version count exactly when the key exists |
| Transit.TransitEngine.CreateKey | src/main/java/fi/protonode/postcryptic/EncryptionKeyInjector.java:97 | adds the key with one version if absent, and leaves an existing key alone |
| Transit.TransitEngine.Encrypt | src/main/java/fi/protonode/postcryptic/EncryptionKeyInjector.java:114 | returns the engine's encryption and logs the request |
| Transit.TransitEngine.Decrypt | src/main/java/fi/protonode/postcryptic/EncryptionKeyInjector.java:70 | returns the engine's decryption and logs the request |
| Session.ApplyBatch | src/main/java/fi/protonode/postcryptic/EncryptionKeyInjector.java:82 | after the batch, a name is set exactly when it was set before or some assignment names it |
| Session.ApplyBatchLastWins | src/main/java/fi/protonode/postcryptic/EncryptionKeyInjector.java:82 | an assignment that is not overwritten later decides its setting's value |
| Session.ApplyBatchUntouched | src/main/java/fi/protonode/postcryptic/EncryptionKeyInjector.java:82 | a name no assignment mentions keeps its value |
| Session.ApplyTwo | src/main/java/fi/protonode/postcryptic/EncryptionKeyInjector.java:82 | a two-statement batch performs its assignments in order |
| Session.Connection.QueryActiveKeys | src/main/java/fi/protonode/postcryptic/EncryptionKeyInjector.java:62-63 | returns the active rows in ascending id order, as one statement |
| Session.Connection.ExecuteBatch | src/main/java/fi/protonode/postcryptic/EncryptionKeyInjector.java:82 | the session becomes ApplyBatch of the batch, as one statement |
| Base64.DecodeEncode | src/main/java/fi/protonode/postcryptic/EncryptionKeyInjector.java:132 | decoding the Base64 text of any octet sequence gives it back |
| Base64.EncodeShape | src/main/java/fi/protonode/postcryptic/EncryptionKeyInjector.java:132 | the text has four characters per started group of three octets: alphabet characters, then exactly `(3 - n mod 3) mod 3` pad characters |
| Base64.CodeChar | src/main/java/fi/protonode/postcryptic/EncryptionKeyInjector.java:132 | an alphabet character exactly for codes below 64, `=` for the pad code, and CharCode inverts it |
| Decimal.NatToString | src/main/java/fi/protonode/postcryptic/EncryptionKeyInjector.java:72 | the id text is non-empty decimal digits with no leading zero |
| Decimal.ParseNatToString | src/main/java/fi/protonode/postcryptic/EncryptionKeyInjector.java:72 | parsing the id text gives back the id |
| Decimal.NatToStringInjective | src/main/java/fi/protonode/postcryptic/EncryptionKeyInjector.java:77 | different ids have different texts |

## Left out

- Vault cryptography is not modelled. Encryption and decryption are arbitrary functions, and a thrown call is `None`.
- `readKey` and `createKey` never fail in this model. `createKey`'s configuration argument (null) is not modelled.
- Injector.BootstrapThenInject takes the round trip `decrypt(encrypt(p)) == p` as a precondition. It is a property of Vault, not of this code, so it is never proved.
- `SecureRandom` is not modelled. Its 16 octets are the parameter `keyBytes`.
- Octets are unsigned 0..255. Java's signed `byte` holds the same bits, so Base64 is unaffected.
- Database failures are left out: of the query, of the insert, and of `executeBatch`. The only exception `onConnectionAcquire` catches in the model is a failed decryption.
- `@Transactional` rollback is not modelled.
- `ORDER BY id ASC` is not modelled. Instead, the table is kept in ascending id order (`KeyringTable.Valid`), and the query keeps that order.
- The serial `id` column is modelled by `nextId`. The `active` column default (true) is modelled by `Insert`.
- Ids are unbounded naturals. Overflow of Java's `Long` and negative ids are not modelled.
- JDBC mechanics are not modelled: `Statement` and `ResultSet` lifetimes, and the batch being added to `fetchDeksStatement` while `setConfigStatement` goes unused.
- The SQL text of the `set_config` statements and the quoting of values are not modelled. A batch is a list of (setting name, value) pairs with session scope.
- Logging and `printStackTrace` are not modelled. The count that is logged is returned as `injected`.
- The unsynchronised read and write of `isInitialized` between startup and pool threads is concurrency, which this model does not cover.
- The Base64 decoder is not part of the source. It is the reference against which the encoder's round trip is stated.
- `ComponentConfigResource` and `ComponentConfigEntity` (REST and ORM plumbing) are not part of this model.
