# Encrypted key-value store of the Corona-Warn-App (iOS): a Dafny model

This project models the app's encrypted key-value persistence layer:

- `SQLiteDBBacisWrapper`. It holds one SQLCipher connection over the single table `kv(key TEXT UNIQUE, value BLOB)`.
- `SQLiteKeyValueStore`. This is the façade the app uses. It picks the database passphrase from the keychain (or makes a fresh UUID one), opens the wrapper, creates the schema, and offers raw and typed subscripts.

The model treats SQLite as a state machine over an abstract table, not as file I/O:

- The rows of `kv` are a `map<string, Bytes>`. A map holds at most one value per key, just as the UNIQUE column does.
- The engine's return codes are inputs. A `Native.Replies` value gives the codes of `sqlite3_prepare_v2`, of each bind and of `sqlite3_step`, plus the error message. `sqlite3_step` either runs the statement as its SQL says (`Executes`) or fails with a fault code. A fault code is never SQLITE_OK, SQLITE_ROW or SQLITE_DONE. So a fault-free `SELECT` steps to SQLITE_ROW exactly when the key has a row.
- Every operation also returns its log of native calls (`seq<Native.Call>`). Resource discipline is stated over this log:
  - each operation prepares at most one statement;
  - that statement is finalized exactly once, as the last call;
  - `open` closes a non-nil handle on both failure paths;
  - over a store's whole lifetime (init, any session of calls, deinit) every statement and every connection handle is released.
- The keychain is a map from alias to bytes. Whether each Security call faults is an input.
- `UUID().uuidString` is an input string. The JSON encoder and decoder are function parameters that may fail.
- The bytes the engine stores for a buffer bound with `sqlite3_bind_blob(..., -1, nil)` are a parameter `readBlob`. Each round-trip lemma takes `FaithfulBlob(readBlob, data)` (the engine reads the buffer back as exactly its bytes) as a hypothesis. That is an assumption about the engine, not a theorem.
- UTF-8 is modelled concretely. The passphrase is saved as `Data(key.utf8)`, read back with `String(decoding:as:)`, and handed to `sqlite3_key` as a NUL-terminated C string. The proof that decoding inverts encoding gives passphrase stability across launches.

Modules: `Common` (Option, Result, bytes), `Utf8`, `Native` (engine vocabulary and call log), `DbWrapper` (the wrapper), `Keychain`, `KeyValueStore` (the façade), `StoreProperties` (sessions and cross-call properties).

Behaviour of the code worth knowing, which the model follows:

- **A wrong passphrase does not fail `open`.** `sqlite3_key` does not check the key. A wrong key only shows when the first statement runs. `init(with:)` keeps `db` set when `createTable` throws after a successful open (`KeyValueStore.Init`), and every later statement on such a store is then at the engine's mercy. The model leaves that to the replies.
- **Only a failed open makes the store inert.** A failed schema statement leaves `db` set.
- **An empty stored value reads back as nil.** `sqlite3_column_blob` returns NULL for a zero-length blob, and `getValue` turns a NULL column into nil (`DbWrapper.GetValue`). Byte-exactness of a non-empty value rests on the engine's reading of a length −1 blob (`FaithfulBlob`).
- **Keys are cut at the first NUL character.** Both `insertKeyValue` and `getValue` bind the key with `sqlite3_bind_text(..., -1, nil)`, and a negative length makes SQLite read up to the first NUL. So `"a\u{0}b"` and `"a"` address the same row (`Native.BoundText`, `StoreProperties.NulSuffixAliasesKey`).
- **A nil write is a no-op only for the raw subscript.** The typed setter encodes its `Model?` argument, so a nil typed write writes whatever the encoder makes of nil, or nothing if the encoder throws (`KeyValueStore.TypedSet`).
- **An empty `Data` write erases the key for readers.** On a live store, an empty `Data` is bound like any other buffer and stored as the engine reads it. Read faithfully, it is a zero-length blob, which `getValue` reports as nil (`StoreProperties.EmptyWriteReadsNil`). On a degraded store `db?.insertKeyValue` is never evaluated, so the write is ignored.

## Model

| member | source | states |
|---|---|---|
| `DbWrapper.ErrorMessage` | src/xcode/ENA/ENA/Source/Workers/SQLiteDBBacisWrapper.swift:29-36 | the message of every thrown error is the engine's `sqlite3_errmsg` text when that pointer is non-NULL, and the fixed text "No error message provided from sqlite." when it is NULL |
| `DbWrapper.Open` | src/xcode/ENA/ENA/Source/Workers/SQLiteDBBacisWrapper.swift:46-80 | returns a wrapper exactly when `sqlite3_open` and `sqlite3_key` both return SQLITE_OK, with the file's rows; every other path throws `OpenDatabase` with the engine's message or the fixed fallback text; the key material is the passphrase's UTF-8 bytes plus the NUL terminator; a failed open ends by closing a non-nil handle |
| `DbWrapper.OpenLeaksNoHandle` | src/xcode/ENA/ENA/Source/Workers/SQLiteDBBacisWrapper.swift:52-70 | on success the wrapper owns exactly one open handle; on either failure path every non-nil handle is closed exactly once before the error escapes, and a nil handle is never closed |
| `DbWrapper.Deinit` | src/xcode/ENA/ENA/Source/Workers/SQLiteDBBacisWrapper.swift:42-44 | releasing the wrapper closes its connection handle once |
| `DbWrapper.PrepareStatement` | src/xcode/ENA/ENA/Source/Workers/SQLiteDBBacisWrapper.swift:83-90 | yields the statement exactly when `sqlite3_prepare_v2` returns SQLITE_OK, and otherwise throws `Prepare` with the engine's message; it makes that one native call and touches no rows |
| `DbWrapper.BindFrom` | src/xcode/ENA/ENA/Source/Workers/SQLiteDBBacisWrapper.swift:111-116 | binds the placeholders in order and stops at the first rejected bind, as the `&&` chain does; it succeeds exactly when every bind returns SQLITE_OK, and the log records which value went to which slot |
| `DbWrapper.CreateTable` | src/xcode/ENA/ENA/Source/Workers/SQLiteDBBacisWrapper.swift:92-100 | succeeds exactly when prepare and step succeed; throws `Prepare` or `Step` otherwise; leaves the rows unchanged; the statement is finalized on every path after a successful prepare |
| `Native.BoundText` | src/xcode/ENA/ENA/Source/Workers/SQLiteDBBacisWrapper.swift:111 | the text SQLite reads from a key bound with length −1: the longest NUL-free prefix of the key, ending just before the first NUL character when there is one |
| `Native.BoundTextStopsAtNul` | src/xcode/ENA/ENA/Source/Workers/SQLiteDBBacisWrapper.swift:111 | two keys that agree up to a NUL character are read as the same text |
| `DbWrapper.ExecuteUpsert` | src/xcode/ENA/ENA/Source/Workers/SQLiteDBBacisWrapper.swift:103 | the engine running `INSERT ... ON CONFLICT(key) DO UPDATE SET value = ?`: a key without a row gets one valued from placeholder 2; an existing row has its value replaced from placeholder 3; the row is keyed by the bound text of placeholder 1; no other row changes and no row disappears |
| `DbWrapper.InsertKeyValue` | src/xcode/ENA/ENA/Source/Workers/SQLiteDBBacisWrapper.swift:102-123 | error taxonomy: `Prepare` when prepare fails, `Bind` when any bind fails, `Step` when the step is not SQLITE_DONE; a throw changes no row; on success the key's bound text (up to its first NUL) maps to the bytes read from the one buffer (the same whether the row was inserted or updated) and every other key is unchanged; slots 2 and 3 are bound to the same buffer; every `data`, empty included, is accepted |
| `DbWrapper.GetValue` | src/xcode/ENA/ENA/Source/Workers/SQLiteDBBacisWrapper.swift:125-144 | never throws; returns the stored bytes exactly when prepare, bind and step all succeed and the key's bound text (up to its first NUL) holds a non-empty value; returns nil on any failure, on no row, or on a zero-length value (a NULL column) |
| `DbWrapper.ClearAll` | src/xcode/ENA/ENA/Source/Workers/SQLiteDBBacisWrapper.swift:146-159 | never throws; a fault-free run leaves no rows, and any failure leaves the rows as they were; the statement is scoped |
| `DbWrapper.Vacuum` | src/xcode/ENA/ENA/Source/Workers/SQLiteDBBacisWrapper.swift:161-174 | never throws and never changes the logical rows; the statement is scoped |
| `Native.ScopedFinalizesOnce` | src/xcode/ENA/ENA/Source/Workers/SQLiteDBBacisWrapper.swift:94-96 | a log shaped by `defer { sqlite3_finalize }` prepares at most one statement, finalizes it exactly once when it exists and never otherwise, and leaves the connection alone |
| `StoreProperties.WrapperFinalizesOnce` | src/xcode/ENA/ENA/Source/Workers/SQLiteDBBacisWrapper.swift:92-174 | `createTable`, `insertKeyValue`, `getValue`, `clearAll` and `vacuum` each finalize their statement exactly once when prepare produced one, and never otherwise, on every exit path |
| `Utf8.DecodeEncode` | src/xcode/ENA/ENA/Source/Workers/SQLiteKeyValueStore.swift:36-39 | decoding the UTF-8 bytes of a string (`String(decoding:as:)` after `Data(key.utf8)`) gives back the string |
| `Keychain.Delete` | src/xcode/ENA/ENA/Source/Workers/SQLiteKeyValueStore.swift:119 | a fault-free delete removes the alias's item and leaves the rest; a faulted one changes nothing |
| `Keychain.Add` | src/xcode/ENA/ENA/Source/Workers/SQLiteKeyValueStore.swift:120 | an add succeeds exactly when the alias has no item and nothing faults, and then stores the data; an alias that already has an item is refused as a duplicate |
| `Keychain.Save` | src/xcode/ENA/ENA/Source/Workers/SQLiteKeyValueStore.swift:113-121 | delete then add: it succeeds exactly when the add does not fault and the old item is gone (it was absent or the delete worked); on success the alias maps to exactly the new data; other aliases never change; a failure leaves the alias either untouched or removed |
| `Keychain.SaveReplacesExisting` | src/xcode/ENA/ENA/Source/Workers/SQLiteKeyValueStore.swift:119-120 | because the old item is deleted first, saving over an existing alias succeeds where an add alone would be refused |
| `Keychain.Load` | src/xcode/ENA/ENA/Source/Workers/SQLiteKeyValueStore.swift:123-137 | returns the alias's data exactly when an item exists and the query does not fault, and nil otherwise |
| `Keychain.LoadAfterSave` | src/xcode/ENA/ENA/Source/Workers/SQLiteKeyValueStore.swift:113-137 | a successful save is read back by a fault-free load |
| `KeyValueStore.SelectPassphrase` | src/xcode/ENA/ENA/Source/Workers/SQLiteKeyValueStore.swift:34-42 | the passphrase is the UTF-8 decoding of the readable `dbKey` item, and the keychain is untouched; otherwise it is the fresh UUID string, whether or not saving its UTF-8 bytes succeeds; no other alias changes |
| `KeyValueStore.Init` | src/xcode/ENA/ENA/Source/Workers/SQLiteKeyValueStore.swift:25-51 | `db` is set exactly when open succeeds, even if schema creation then throws; a failed open leaves `db` nil (degraded mode); a live `db` holds the file's rows; the native calls are the open's followed by the schema statement's |
| `KeyValueStore.GetData` | src/xcode/ENA/ENA/Source/Workers/SQLiteKeyValueStore.swift:53-55 | with `db` nil it is nil and makes no native call; any bytes it returns are the key's stored value; with a live `db` and a fault-free engine it returns the stored non-empty value |
| `KeyValueStore.SetData` | src/xcode/ENA/ENA/Source/Workers/SQLiteKeyValueStore.swift:57-66 | a nil value or a nil `db` changes nothing; a successful insert sets the key to the written bytes; a failed insert is swallowed and changes nothing; `db` stays as it was |
| `KeyValueStore.ClearAll` | src/xcode/ENA/ENA/Source/Workers/SQLiteKeyValueStore.swift:68-71 | with a live `db`, a successful delete empties the table and a failed delete changes nothing, whatever the vacuum does; it runs two scoped statements; with `db` nil it does nothing |
| `KeyValueStore.Flush` | src/xcode/ENA/ENA/Source/Workers/SQLiteKeyValueStore.swift:73-76 | has exactly the effect and native calls of `clearAll()` |
| `KeyValueStore.TypedGet` | src/xcode/ENA/ENA/Source/Workers/SQLiteKeyValueStore.swift:88-99 | nil when no bytes are stored; otherwise the decoder's result, so nil when decoding fails |
| `KeyValueStore.TypedSet` | src/xcode/ENA/ENA/Source/Workers/SQLiteKeyValueStore.swift:100-107 | an encoding failure writes nothing; otherwise it is the raw write of the encoded bytes |
| `StoreProperties.Session` | src/xcode/ENA/ENA/Source/Workers/SQLiteKeyValueStore.swift:53-85 | no sequence of reads, writes, clears and flushes opens or closes the connection: a degraded store stays degraded and inert, a live one stays live |
| `StoreProperties.SessionBalanced` | src/xcode/ENA/ENA/Source/Workers/SQLiteKeyValueStore.swift:53-85 | across any session every prepared statement is finalized and no connection handle is acquired or released |
| `StoreProperties.LifetimeReleasesEverything` | src/xcode/ENA/ENA/Source/Workers/SQLiteDBBacisWrapper.swift:42-80 | init, any session, then deinit of a live wrapper: every statement is finalized and every non-nil connection handle is closed, each exactly as often as it was acquired |
| `StoreProperties.DegradedStoreIsInert` | src/xcode/ENA/ENA/Source/Workers/SQLiteKeyValueStore.swift:53-76 | with `db` nil every get is nil, every set, clear and flush leaves the store unchanged, and a whole session changes nothing and makes no native call |
| `StoreProperties.SetThenGet` | src/xcode/ENA/ENA/Source/Workers/SQLiteKeyValueStore.swift:78-85 | a successful write of non-empty bytes is read back by a fault-free read of the same key (given a faithful engine) |
| `StoreProperties.SetSetThenGet` | src/xcode/ENA/ENA/Source/Workers/SQLiteDBBacisWrapper.swift:103 | of two writes to one key, a successful second one wins |
| `StoreProperties.EmptyWriteReadsNil` | src/xcode/ENA/ENA/Source/Workers/SQLiteDBBacisWrapper.swift:102-141 | a successful write of empty `Data` creates or keeps a row for the key, and (given a faithful engine) a later read of that key is nil, because a zero-length blob comes back as a NULL column |
| `StoreProperties.NilWriteKeepsValue` | src/xcode/ENA/ENA/Source/Workers/SQLiteKeyValueStore.swift:57-60 | writing nil is not a delete: the key reads as before |
| `StoreProperties.FailedWriteChangesNothing` | src/xcode/ENA/ENA/Source/Workers/SQLiteKeyValueStore.swift:61-66 | a write whose insert fails is swallowed and leaves the store unchanged |
| `StoreProperties.ClearThenGet` | src/xcode/ENA/ENA/Source/Workers/SQLiteKeyValueStore.swift:68-76 | after `clearAll()` or `flush()` with a successful delete, every key reads nil |
| `StoreProperties.AbsentKeyReadsNil` | src/xcode/ENA/ENA/Source/Workers/SQLiteDBBacisWrapper.swift:136-138 | a key whose bound text has no row reads nil |
| `StoreProperties.NulSuffixAliasesKey` | src/xcode/ENA/ENA/Source/Workers/SQLiteDBBacisWrapper.swift:111-133 | a successful write under `a + "\u{0}" + rest` (with `a` NUL-free) is read back by a fault-free read of `a`, because both binds stop at the NUL |
| `StoreProperties.SparedKeySurvives` | src/xcode/ENA/ENA/Source/Workers/SQLiteDBBacisWrapper.swift:102-174 | a session with no clear, no flush and no write to a key with the same bound text leaves that key's row as it was, failures included |
| `StoreProperties.WrittenValueSurvivesSession` | src/xcode/ENA/ENA/Source/Workers/SQLiteKeyValueStore.swift:53-85 | a successful write is read back after any session that spares its key |
| `StoreProperties.TypedSetThenGet` | src/xcode/ENA/ENA/Source/Workers/SQLiteKeyValueStore.swift:88-107 | a value whose encoding is non-empty and decodes back to it is read back by the typed getter after a successful typed write |
| `StoreProperties.TypedFailuresAreSilent` | src/xcode/ENA/ENA/Source/Workers/SQLiteKeyValueStore.swift:93-106 | an encoding failure leaves the store unchanged, and stored bytes that do not decode read as nil |
| `StoreProperties.PassphraseStableAcrossLaunches` | src/xcode/ENA/ENA/Source/Workers/SQLiteKeyValueStore.swift:34-42 | the UUID a first launch saves is the passphrase of every later launch that can read the keychain, and the later launch leaves the keychain as it found it |
| `StoreProperties.UnsavedPassphraseStillUsed` | src/xcode/ENA/ENA/Source/Workers/SQLiteKeyValueStore.swift:37-44 | when saving the fresh UUID fails, the launch still keys the database with it, and no passphrase is left in the keychain for the next launch |
| `StoreProperties.ReadFaultReplacesStoredPassphrase` | src/xcode/ENA/ENA/Source/Workers/SQLiteKeyValueStore.swift:35-41 | a keychain read that faults while `dbKey` exists makes the launch use a fresh UUID, and a successful save then replaces the stored passphrase |

## Left out

- Real SQLite and SQLCipher behaviour is not modelled: the file format, encryption, key derivation and wrong-key detection. Return codes are inputs, and the model never decides which one the engine gives.
- `readBlob` is left abstract. It stands for what the engine stores for a buffer bound with length −1. Nothing in the wrapper guarantees that the bytes come back exactly. Round-trip lemmas take `FaithfulBlob` as a hypothesis.
- `DbWrapper.InsertKeyValue`: the key's pointer lifetime is not modelled. The key is bound with a `nil` destructor (SQLITE_STATIC), so SQLite uses the pointer until `sqlite3_step`. The Swift string-to-pointer bridging only guarantees it for the duration of the bind call. The model assumes the engine still reads the key's text when the statement steps.
- `DbWrapper.GetValue`: the same SQLITE_STATIC pointer lifetime for the key bound at line 133 is not modelled, and the key is assumed to be read intact at `sqlite3_step`.
- `DbWrapper.InsertKeyValue`: `rawBufferPointer.baseAddress!` is taken not to trap for empty `Data`. Foundation's `Data` is expected to hand `withUnsafeBytes` a non-nil pointer even when empty, but nothing in this code guarantees it. If it did trap, an empty write on a live store (`KeyValueStore.SetData` with `Data()`) would crash instead of storing a zero-length row.
- `DbWrapper.CreateTable`: the SQL text is not interpreted. The only statement passed to it is `CREATE TABLE IF NOT EXISTS kv`, which is taken to leave the rows unchanged. The creation of the table itself is not represented.
- `DbWrapper.GetValue`: a NULL column caused by an allocation failure is not modelled. A NULL column comes only from a zero-length value.
- `DbWrapper.PrepareStatement`: a prepare that returns SQLITE_OK with a NULL statement (SQL that is empty or only a comment) is not modelled. Every SQL string used here is a fixed, non-empty statement.
- The on-disk effect of `VACUUM` (the file size) is left out. Only the logical rows are modelled.
- The text of `sqlite3_errmsg` is an input (`errmsg`). Only whether it is NULL matters to the model.
- Keychain query attributes (`kSecClass`, `kSecMatchLimit`, `kSecReturnData`) are not modelled. Items are addressed by alias alone, and `dataTypeRef as? Data` is taken to succeed whenever the query does.
- `UUID()` randomness is an input string, and `JSONEncoder`/`JSONDecoder` are function parameters. Their formats are not modelled.
- `Utf8.Decode`: each octet of an ill-formed sequence is replaced by one U+FFFD. Swift replaces each maximal ill-formed subpart with one. Only well-formed input (the saved passphrase) matters to the proved properties.
- Logging is left out. This includes the inverted `== noErr` test before the "Unable to open save Key to Keychain" message, which only decides whether a log line is written.
- The `Data` extension `init(from:)` / `to(type:)` reinterprets raw memory and has no stateable semantics, so it is left out.
- Thread safety is not modelled because the wrapper provides none. Every call is sequential.
- `ExposureDetectionViewController` is UIKit presentation with no algorithmic content, so it is left out.
