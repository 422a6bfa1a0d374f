/** `SQLiteKeyValueStore`: the façade the app uses. Its connection is
    optional; without one (`db == nil`) every read is nil and every write does
    nothing. Errors of the wrapper never escape: reads become nil, writes become
    no-ops. Typed access goes through an encoder and a decoder that may fail. */
module KeyValueStore {
  import opened Common
  import Native
  import Utf8
  import Keychain
  import opened DbWrapper

  /** The keychain alias of the database passphrase. */
  const DbKeyAlias: string := "dbKey"

  /** The schema statement `init(with:)` runs. */
  const SchemaSql: string := "CREATE TABLE IF NOT EXISTS kv (\n\tkey TEXT UNIQUE,\n\tvalue BLOB\n);"

  /** The store: `None` is the degraded mode in which `db` is nil. */
  datatype Store = Store(db: Option<Connection>)

  /** A read: what it returned and the native calls it made. */
  datatype Read<T> = Read(value: Option<T>, calls: seq<Native.Call>)

  /** A write: the store afterwards and the native calls it made. */
  datatype Update = Update(store: Store, calls: seq<Native.Call>)

  /** The passphrase `init(with:)` chose and the keychain after choosing it. */
  datatype Passphrase = Passphrase(secret: string, keychain: Keychain.Items)

  /** What `init(with:)` meets on one launch: the keychain and its replies, the
      string `UUID().uuidString` produced, the database file at the URL and the
      engine's replies to opening it and to the schema statement. */
  datatype Launch = Launch(
    keychain: Keychain.Items, loadFault: Option<Keychain.Fault>, uuid: string, save: Keychain.SaveReplies,
    path: string, file: Table, open: OpenReplies, schema: Native.Replies)

  datatype Initialized = Initialized(store: Store, keychain: Keychain.Items, passphrase: string, calls: seq<Native.Call>)

  /** Passphrase selection in `init(with:)`: the UTF-8 decoding of the keychain's
      `dbKey` item when it can be read; otherwise the fresh UUID string, which is
      also saved to the keychain, and used whether or not that save succeeds. */
  function SelectPassphrase(items: Keychain.Items, loadFault: Option<Keychain.Fault>, uuid: string, save: Keychain.SaveReplies): (p: Passphrase)
    ensures DbKeyAlias in items && loadFault.None? ==> p == Passphrase(Utf8.Decode(items[DbKeyAlias]), items)
    ensures !(DbKeyAlias in items && loadFault.None?) ==> p.secret == uuid
    ensures !(DbKeyAlias in items && loadFault.None?) ==>
      p.keychain == Keychain.Save(items, DbKeyAlias, Utf8.Encode(uuid), save).items
    ensures p.keychain - {DbKeyAlias} == items - {DbKeyAlias}
  {
    match Keychain.Load(items, DbKeyAlias, loadFault)
    case Some(keyData) => Passphrase(Utf8.Decode(keyData), items)
    case None => Passphrase(uuid, Keychain.Save(items, DbKeyAlias, Utf8.Encode(uuid), save).items)
  }

  /** `init(with:)`. A failed open leaves `db` nil; a failed schema statement
      after a successful open leaves `db` set. Nothing is thrown. */
  function Init(l: Launch): (i: Initialized)
    ensures i.passphrase == SelectPassphrase(l.keychain, l.loadFault, l.uuid, l.save).secret
    ensures i.keychain == SelectPassphrase(l.keychain, l.loadFault, l.uuid, l.save).keychain
    ensures i.store.db.Some? <==> l.open.open == Native.SQLITE_OK && l.open.key == Native.SQLITE_OK
    ensures i.store.db.Some? ==> i.store.db.value.rows == l.file
    ensures i.calls == Open(l.path, i.passphrase, l.file, l.open).calls +
      (if i.store.db.Some? then CreateTable(i.store.db.value, SchemaSql, l.schema).calls else [])
  {
    var p := SelectPassphrase(l.keychain, l.loadFault, l.uuid, l.save);
    var o := Open(l.path, p.secret, l.file, l.open);
    match o.result
    case Err(_) => Initialized(Store(None), p.keychain, p.secret, o.calls)
    case Ok(c) =>
      var t := CreateTable(c, SchemaSql, l.schema);
      Initialized(Store(Some(t.db)), p.keychain, p.secret, o.calls + t.calls)
  }

  /** `getData(for:)`, and the getter of the raw subscript. */
  function GetData(s: Store, key: string, r: Native.Replies): (g: Read<Bytes>)
    ensures s.db.None? ==> g == Read(None, [])
    ensures g.value.Some? ==> s.db.Some? && Native.BoundText(key) in s.db.value.rows && g.value.value == s.db.value.rows[Native.BoundText(key)]
    ensures s.db.Some? && Native.Succeeds(r, 1) && Native.BoundText(key) in s.db.value.rows && |s.db.value.rows[Native.BoundText(key)]| > 0 ==>
      g.value == Some(s.db.value.rows[Native.BoundText(key)])
    ensures s.db.Some? ==> Native.StatementScoped(g.calls)
  {
    match s.db
    case None => Read(None, [])
    case Some(c) =>
      var l := GetValue(c, key, r);
      Read(l.value, l.calls)
  }

  /** `setData(_:for:)`, and the setter of the raw subscript. A nil value is a
      no-op, not a delete; a thrown error is swallowed. */
  function SetData(s: Store, data: Option<Bytes>, key: string, r: Native.Replies, readBlob: Native.BlobReader): (u: Update)
    ensures data.None? || s.db.None? ==> u == Update(s, [])
    ensures u.store.db.Some? <==> s.db.Some?
    ensures s.db.Some? && data.Some? && Native.Succeeds(r, 3) ==>
      u.store.db.value.rows == s.db.value.rows[Native.BoundText(key) := readBlob(data.value, -1)]
    ensures s.db.Some? && data.Some? && !Native.Succeeds(r, 3) ==> u.store == s
    ensures s.db.Some? && data.Some? ==> Native.StatementScoped(u.calls)
  {
    match data
    case None => Update(s, [])
    case Some(bytes) =>
      match s.db
      case None => Update(s, [])
      case Some(c) =>
        var run := InsertKeyValue(c, key, bytes, r, readBlob);
        Update(Store(Some(run.db)), run.calls)
  }

  /** `clearAll()`: delete every row, then vacuum; both best-effort. */
  function ClearAll(s: Store, delete: Native.Replies, vacuum: Native.Replies): (u: Update)
    ensures s.db.None? ==> u == Update(s, [])
    ensures s.db.Some? && Native.Succeeds(delete, 0) ==> u.store == Store(Some(Connection(map[])))
    ensures s.db.Some? && !Native.Succeeds(delete, 0) ==> u.store == s
    ensures s.db.Some? ==> exists n :: 0 < n < |u.calls| && Native.StatementScoped(u.calls[..n]) && Native.StatementScoped(u.calls[n..])
  {
    match s.db
    case None => Update(s, [])
    case Some(c) =>
      var d := DbWrapper.ClearAll(c, delete);
      var v := Vacuum(d.db, vacuum);
      assert (d.calls + v.calls)[..|d.calls|] == d.calls;
      assert (d.calls + v.calls)[|d.calls|..] == v.calls;
      Update(Store(Some(v.db)), d.calls + v.calls)
  }

  /** `flush()`: the same statements as `clearAll()`, with the same effect. */
  function Flush(s: Store, delete: Native.Replies, vacuum: Native.Replies): (u: Update)
    ensures u == ClearAll(s, delete, vacuum)
    ensures s.db.Some? && Native.Succeeds(delete, 0) ==> u.store.db.value.rows == map[]
  {
    match s.db
    case None => Update(s, [])
    case Some(c) =>
      var d := DbWrapper.ClearAll(c, delete);
      var v := Vacuum(d.db, vacuum);
      Update(Store(Some(v.db)), d.calls + v.calls)
  }

  /** The getter of the typed subscript: nil when no bytes are stored or when
      they do not decode. */
  function TypedGet<T>(s: Store, key: string, r: Native.Replies, decode: Bytes -> Option<T>): (g: Read<T>)
    ensures GetData(s, key, r).value.None? ==> g.value.None?
    ensures GetData(s, key, r).value.Some? ==> g.value == decode(GetData(s, key, r).value.value)
    ensures g.calls == GetData(s, key, r).calls
  {
    var raw := GetData(s, key, r);
    match raw.value
    case None => Read(None, raw.calls)
    case Some(bytes) => Read(decode(bytes), raw.calls)
  }

  /** The setter of the typed subscript: the new value (itself optional) is
      encoded, and the bytes written as by `setData`; an encoding failure writes
      nothing. */
  function TypedSet<T>(s: Store, key: string, value: Option<T>, r: Native.Replies,
                       encode: Option<T> -> Option<Bytes>, readBlob: Native.BlobReader): (u: Update)
    ensures encode(value).None? ==> u == Update(s, [])
    ensures encode(value).Some? ==> u == SetData(s, encode(value), key, r, readBlob)
  {
    match encode(value)
    case None => Update(s, [])
    case Some(bytes) => SetData(s, Some(bytes), key, r, readBlob)
  }
}
