/** `SQLiteDBBacisWrapper`: one encrypted SQLite connection over the single
    table `kv(key TEXT UNIQUE, value BLOB)`. The table's logical contents are a
    map from key to bytes (a map holds at most one entry per key, as the UNIQUE
    column does); each operation prepares one statement, runs it and finalizes
    it, and reports what it did in a log of native calls. */
module DbWrapper {
  import opened Common
  import Native
  import Utf8

  /** The rows of `kv`. */
  type Table = map<string, Bytes>

  /** `SQLiteError`: what the wrapper throws, each case carrying the engine's message. */
  datatype SQLiteError =
    | OpenDatabase(message: string)
    | Prepare(message: string)
    | Step(message: string)
    | Bind(message: string)

  const NoMessage: string := "No error message provided from sqlite."

  const InsertSql: string := "INSERT INTO kv(key,value) VALUES(?,?) ON CONFLICT(key) DO UPDATE SET value = ?;"
  const SelectSql: string := "SELECT value FROM kv WHERE key = ?;"
  const DeleteSql: string := "DELETE FROM kv;"
  const VacuumSql: string := "VACUUM;"

  /** The message of a thrown error: the engine's `sqlite3_errmsg`, or a fixed text when that is NULL. */
  function ErrorMessage(errmsg: Option<string>): (m: string)
    ensures errmsg.Some? ==> m == errmsg.value
    ensures errmsg.None? ==> m == NoMessage && |m| > 0
  {
    match errmsg
    case Some(m) => m
    case None => NoMessage
  }

  /** An open wrapper: it owns the connection handle, and the database behind it holds `rows`. */
  datatype Connection = Connection(rows: Table)

  /** A prepared statement. */
  datatype Statement = Statement(sql: string)

  /** The engine's replies to `open`: the code of `sqlite3_open`, whether it still
      handed back a non-nil handle when it failed, the code of `sqlite3_key`, and
      the error message. */
  datatype OpenReplies = OpenReplies(open: int, handle: bool, key: int, errmsg: Option<string>)

  datatype Opening = Opening(result: Result<Connection, SQLiteError>, calls: seq<Native.Call>)
  datatype Preparation = Preparation(result: Result<Statement, SQLiteError>, calls: seq<Native.Call>)
  /** A throwing operation: what it returned or threw, the connection afterwards, and the native calls it made. */
  datatype Run = Run(result: Result<(), SQLiteError>, db: Connection, calls: seq<Native.Call>)
  /** `getValue`: the bytes it returned (None for nil) and the native calls it made. */
  datatype Lookup = Lookup(value: Option<Bytes>, calls: seq<Native.Call>)
  /** A non-throwing operation: the connection afterwards and the native calls it made. */
  datatype Effect = Effect(db: Connection, calls: seq<Native.Call>)
  datatype Binding = Binding(accepted: bool, calls: seq<Native.Call>)

  /** The octets `sqlite3_key` receives: the passphrase as a NUL-terminated UTF-8
      C string, with `utf8CString.count` (which counts the terminator) as length. */
  function KeyMaterial(secret: string): (m: Bytes)
  {
    Utf8.Encode(secret) + [0]
  }

  /** `open(path:secret:)`. `file` is what the database at `path` already holds. */
  function Open(path: string, secret: string, file: Table, r: OpenReplies): (o: Opening)
    ensures o.result.Ok? <==> r.open == Native.SQLITE_OK && r.key == Native.SQLITE_OK
    ensures o.result.Ok? ==> o.result.value.rows == file
    ensures o.result.Err? ==> o.result.error == OpenDatabase(ErrorMessage(r.errmsg))
    ensures r.open == Native.SQLITE_OK ==> Native.Key(KeyMaterial(secret), r.key) in o.calls
    ensures r.open != Native.SQLITE_OK ==> forall c :: c in o.calls ==> !c.Key?
    ensures 1 <= |o.calls| <= 3 && o.calls[0] == Native.Open(path, r.open, r.open == Native.SQLITE_OK || r.handle)
    ensures o.result.Ok? ==> Native.Close !in o.calls
    ensures o.result.Err? && (r.open == Native.SQLITE_OK || r.handle) ==> o.calls[|o.calls| - 1] == Native.Close
  {
    var handle := r.open == Native.SQLITE_OK || r.handle;
    var openCall := Native.Open(path, r.open, handle);
    var closing := if handle then [Native.Close] else [];
    if r.open == Native.SQLITE_OK then
      var keyCall := Native.Key(KeyMaterial(secret), r.key);
      if r.key == Native.SQLITE_OK then
        Opening(Ok(Connection(file)), [openCall, keyCall])
      else
        Opening(Err(OpenDatabase(ErrorMessage(r.errmsg))), [openCall, keyCall] + closing)
    else
      Opening(Err(OpenDatabase(ErrorMessage(r.errmsg))), [openCall] + closing)
  }

  /** `open` leaks no handle: on success the wrapper owns the one handle it
      opened; on either failure path a non-nil handle is closed exactly once
      before the error escapes, and a nil one is never closed. */
  lemma OpenLeaksNoHandle(path: string, secret: string, file: Table, r: OpenReplies)
    ensures var o := Open(path, secret, file, r);
      o.result.Ok? ==> Native.Acquired(o.calls, Native.DbHandle) == 1 && Native.Released(o.calls, Native.DbHandle) == 0
    ensures var o := Open(path, secret, file, r);
      o.result.Err? ==> Native.Balanced(o.calls, Native.DbHandle) && Native.Released(o.calls, Native.DbHandle) <= 1
  {
    var o := Open(path, secret, file, r);
    var cs := o.calls;
    assert cs == [cs[0]] + cs[1..];
    Native.CountConcat([cs[0]], cs[1..], Native.DbHandle, false);
    Native.CountConcat([cs[0]], cs[1..], Native.DbHandle, true);
    var tail := cs[1..];
    if |tail| > 0 {
      assert tail == [tail[0]] + tail[1..];
      Native.CountConcat([tail[0]], tail[1..], Native.DbHandle, false);
      Native.CountConcat([tail[0]], tail[1..], Native.DbHandle, true);
      var last := tail[1..];
      if |last| > 0 {
        assert last == [last[0]] + last[1..];
        Native.CountConcat([last[0]], last[1..], Native.DbHandle, false);
        Native.CountConcat([last[0]], last[1..], Native.DbHandle, true);
      }
    }
  }

  /** `deinit`: the wrapper closes the handle it owns. */
  function Deinit(c: Connection): (calls: seq<Native.Call>)
    ensures Native.Released(calls, Native.DbHandle) == 1 && Native.Acquired(calls, Native.DbHandle) == 0
  {
    [Native.Close]
  }

  /** `prepareStatement(sql:)`: a statement when `sqlite3_prepare_v2` returns
      SQLITE_OK, otherwise it throws `Prepare`. It reads no rows and changes none. */
  function PrepareStatement(sql: string, r: Native.Replies): (p: Preparation)
    ensures p.result.Ok? <==> r.prepare == Native.SQLITE_OK
    ensures p.result.Ok? ==> p.result.value == Statement(sql)
    ensures p.result.Err? ==> p.result.error == Prepare(ErrorMessage(r.errmsg))
    ensures p.calls == [Native.Prepare(sql, r.prepare)]
  {
    if r.prepare == Native.SQLITE_OK then Preparation(Ok(Statement(sql)), [Native.Prepare(sql, r.prepare)])
    else Preparation(Err(Prepare(ErrorMessage(r.errmsg))), [Native.Prepare(sql, r.prepare)])
  }

  /** Binds `args[i..]` to placeholders `i + 1, i + 2, ...` in order, stopping at
      the first bind the engine rejects, as the `&&` chain of `insertKeyValue` does. */
  function BindFrom(args: seq<Native.Arg>, r: Native.Replies, i: nat): (b: Binding)
    requires i <= |args|
    decreases |args| - i
    ensures b.accepted <==> forall j :: i <= j < |args| ==> Native.BindReply(r, j) == Native.SQLITE_OK
    ensures |b.calls| <= |args| - i
    ensures forall j :: 0 <= j < |b.calls| ==> b.calls[j] == Native.Bind(i + j + 1, args[i + j], Native.BindReply(r, i + j))
    ensures b.accepted ==> |b.calls| == |args| - i
    ensures !b.accepted ==> |b.calls| > 0 && b.calls[|b.calls| - 1].rc != Native.SQLITE_OK
  {
    if i == |args| then Binding(true, [])
    else
      var rc := Native.BindReply(r, i);
      var call := Native.Bind(i + 1, args[i], rc);
      if rc != Native.SQLITE_OK then Binding(false, [call])
      else
        var rest := BindFrom(args, r, i + 1);
        Binding(rest.accepted, [call] + rest.calls)
  }

  /** `createTable(sql:)`. The only statement passed to it creates `kv` if it is
      missing, so the rows are unchanged whatever happens. */
  function CreateTable(c: Connection, sql: string, r: Native.Replies): (run: Run)
    ensures run.result.Ok? <==> Native.Succeeds(r, 0)
    ensures r.prepare != Native.SQLITE_OK ==> run.result == Err(Prepare(ErrorMessage(r.errmsg)))
    ensures r.prepare == Native.SQLITE_OK && r.step.Fails? ==> run.result == Err(Step(ErrorMessage(r.errmsg)))
    ensures run.db == c
    ensures Native.StatementScoped(run.calls) && run.calls[0] == Native.Prepare(sql, r.prepare)
  {
    var p := PrepareStatement(sql, r);
    if p.result.Err? then Run(Err(p.result.error), c, p.calls)
    else
      var rc := Native.StepCode(r.step, Native.SQLITE_DONE);
      var calls := p.calls + [Native.Step(rc), Native.Finalize];
      if rc != Native.SQLITE_DONE then Run(Err(Step(ErrorMessage(r.errmsg))), c, calls)
      else Run(Ok(()), c, calls)
  }

  /** The placeholders of the upsert: the key, the value of a new row, and the
      value that replaces an existing one. Both values are the one buffer of `data`,
      bound with length -1. */
  function UpsertArgs(key: string, data: Bytes): (args: seq<Native.Arg>)
  {
    [Native.Text(key), Native.Blob(data, -1), Native.Blob(data, -1)]
  }

  /** The engine running the upsert: the row is keyed by the text read from
      placeholder 1; a key without a row gets a row whose value is read from
      placeholder 2; a key with a row has its value replaced by the one read
      from placeholder 3. */
  function ExecuteUpsert(rows: Table, args: seq<Native.Arg>, readBlob: Native.BlobReader): (after: Table)
    requires |args| == 3 && args[0].Text? && args[1].Blob? && args[2].Blob?
    ensures Native.BoundText(args[0].text) in after
    ensures Native.BoundText(args[0].text) !in rows ==> after[Native.BoundText(args[0].text)] == readBlob(args[1].buffer, args[1].length)
    ensures Native.BoundText(args[0].text) in rows ==> after[Native.BoundText(args[0].text)] == readBlob(args[2].buffer, args[2].length)
    ensures after.Keys == rows.Keys + {Native.BoundText(args[0].text)}
    ensures forall k :: k in rows && k != Native.BoundText(args[0].text) ==> after[k] == rows[k]
  {
    var key := Native.BoundText(args[0].text);
    var slot := if key in rows then args[2] else args[1];
    rows[key := readBlob(slot.buffer, slot.length)]
  }

  /** `insertKeyValue(key:data:)`. The buffer of `data`, empty or not, is bound
      with length -1 and stored as the engine reads it. The key is bound with
      length -1, so the row is keyed by its text up to the first NUL character. */
  function InsertKeyValue(c: Connection, key: string, data: Bytes, r: Native.Replies, readBlob: Native.BlobReader): (run: Run)
    ensures run.result.Ok? <==> Native.Succeeds(r, 3)
    ensures r.prepare != Native.SQLITE_OK ==> run.result == Err(Prepare(ErrorMessage(r.errmsg)))
    ensures r.prepare == Native.SQLITE_OK && !Native.BindsAccepted(r, 3) ==> run.result == Err(Bind(ErrorMessage(r.errmsg)))
    ensures r.prepare == Native.SQLITE_OK && Native.BindsAccepted(r, 3) && r.step.Fails? ==> run.result == Err(Step(ErrorMessage(r.errmsg)))
    // A failed statement changes nothing.
    ensures run.result.Err? ==> run.db == c
    // On success the key, as the engine reads it, holds what the engine read
    // from the buffer, whether it was inserted or updated; no other key changes.
    ensures run.result.Ok? ==> run.db.rows == c.rows[Native.BoundText(key) := readBlob(data, -1)]
    // The insert slot and the update slot are bound to the same buffer.
    ensures r.prepare == Native.SQLITE_OK && Native.BindsAccepted(r, 3) ==>
      Native.Bind(2, Native.Blob(data, -1), Native.SQLITE_OK) in run.calls && Native.Bind(3, Native.Blob(data, -1), Native.SQLITE_OK) in run.calls
    ensures Native.StatementScoped(run.calls) && run.calls[0] == Native.Prepare(InsertSql, r.prepare)
  {
    var p := PrepareStatement(InsertSql, r);
    if p.result.Err? then Run(Err(p.result.error), c, p.calls)
    else
      var args := UpsertArgs(key, data);
      var b := BindFrom(args, r, 0);
      if !b.accepted then
        Native.ScopedRun(InsertSql, b.calls);
        Run(Err(Bind(ErrorMessage(r.errmsg))), c, p.calls + b.calls + [Native.Finalize])
      else
        assert b.calls == [Native.Bind(1, args[0], Native.BindReply(r, 0)), Native.Bind(2, args[1], Native.BindReply(r, 1)),
                           Native.Bind(3, args[2], Native.BindReply(r, 2))];
        var rc := Native.StepCode(r.step, Native.SQLITE_DONE);
        Native.ScopedRun(InsertSql, b.calls + [Native.Step(rc)]);
        var calls := p.calls + b.calls + [Native.Step(rc), Native.Finalize];
        assert calls == [Native.Prepare(InsertSql, Native.SQLITE_OK)] + (b.calls + [Native.Step(rc)]) + [Native.Finalize];
        if rc != Native.SQLITE_DONE then Run(Err(Step(ErrorMessage(r.errmsg))), c, calls)
        else Run(Ok(()), Connection(ExecuteUpsert(c.rows, args, readBlob)), calls)
  }

  /** `getValue(key:)`: never throws. A fault-free engine steps to SQLITE_ROW
      exactly when the key has a row; `sqlite3_column_blob` returns NULL for a
      zero-length blob, which `getValue` reads as nil. The key is looked up by
      its text up to the first NUL character. The rows are not changed. */
  function GetValue(c: Connection, key: string, r: Native.Replies): (l: Lookup)
    ensures l.value.Some? <==> Native.Succeeds(r, 1) && Native.BoundText(key) in c.rows && |c.rows[Native.BoundText(key)]| > 0
    ensures l.value.Some? ==> l.value.value == c.rows[Native.BoundText(key)]
    ensures Native.StatementScoped(l.calls) && l.calls[0] == Native.Prepare(SelectSql, r.prepare)
  {
    var p := PrepareStatement(SelectSql, r);
    if p.result.Err? then Lookup(None, p.calls)
    else
      var b := BindFrom([Native.Text(key)], r, 0);
      if !b.accepted then Lookup(None, p.calls + b.calls + [Native.Finalize])
      else
        var bound := Native.BoundText(key);
        var rc := Native.StepCode(r.step, if bound in c.rows then Native.SQLITE_ROW else Native.SQLITE_DONE);
        var stepped := p.calls + b.calls + [Native.Step(rc)];
        if rc != Native.SQLITE_ROW then Lookup(None, stepped + [Native.Finalize])
        else
          var stored := c.rows[bound];
          if |stored| == 0 then Lookup(None, stepped + [Native.Column, Native.Finalize])
          else Lookup(Some(stored), stepped + [Native.Column, Native.Finalize])
  }

  /** `clearAll()`: never throws; on a fault-free run every row is gone,
      otherwise the rows are unchanged. */
  function ClearAll(c: Connection, r: Native.Replies): (e: Effect)
    ensures Native.Succeeds(r, 0) ==> e.db.rows == map[]
    ensures !Native.Succeeds(r, 0) ==> e.db == c
    ensures Native.StatementScoped(e.calls) && e.calls[0] == Native.Prepare(DeleteSql, r.prepare)
  {
    var p := PrepareStatement(DeleteSql, r);
    if p.result.Err? then Effect(c, p.calls)
    else
      var rc := Native.StepCode(r.step, Native.SQLITE_DONE);
      var calls := p.calls + [Native.Step(rc), Native.Finalize];
      if rc != Native.SQLITE_DONE then Effect(c, calls)
      else Effect(Connection(map[]), calls)
  }

  /** `vacuum()`: never throws; compaction rewrites the file but not its rows. */
  function Vacuum(c: Connection, r: Native.Replies): (e: Effect)
    ensures e.db == c
    ensures Native.StatementScoped(e.calls) && e.calls[0] == Native.Prepare(VacuumSql, r.prepare)
    ensures Native.Succeeds(r, 0) ==> Native.Step(Native.SQLITE_DONE) in e.calls
  {
    var p := PrepareStatement(VacuumSql, r);
    if p.result.Err? then Effect(c, p.calls)
    else
      var rc := Native.StepCode(r.step, Native.SQLITE_DONE);
      Effect(c, p.calls + [Native.Step(rc), Native.Finalize])
  }
}
