/** The part of the SQLite C interface that the wrapper calls: the result codes
    it compares against, the engine's replies to one statement, and a log of
    native calls from which handle ownership is judged. Replies are inputs: the
    model never decides whether the engine succeeds. */
module Native {
  import opened Common

  const SQLITE_OK: int := 0
  const SQLITE_ERROR: int := 1
  const SQLITE_ROW: int := 100
  const SQLITE_DONE: int := 101

  /** A code `sqlite3_step` reports when a statement fails while it runs. */
  type FaultCode = rc: int | rc != SQLITE_OK && rc != SQLITE_ROW && rc != SQLITE_DONE
    witness SQLITE_ERROR

  /** How the engine answers `sqlite3_step`: it runs the statement as its SQL
      text says, or it fails with a fault code. */
  datatype StepReply = Executes | Fails(code: FaultCode)

  /** The code `sqlite3_step` returns, given the code a successful run yields. */
  function StepCode(reply: StepReply, executed: int): (rc: int)
  {
    match reply
    case Executes => executed
    case Fails(code) => code
  }

  /** The engine's replies during one prepare-bind-step-finalize run.
      `binds[i]` answers the bind of placeholder `i + 1`; a placeholder with no
      listed reply is bound successfully. `errmsg` is what `sqlite3_errmsg`
      returns, `None` standing for a NULL pointer. */
  datatype Replies = Replies(prepare: int, binds: seq<int>, step: StepReply, errmsg: Option<string>)

  function BindReply(r: Replies, i: nat): (rc: int)
  {
    if i < |r.binds| then r.binds[i] else SQLITE_OK
  }

  /** The first `n` placeholders are all bound successfully. */
  predicate BindsAccepted(r: Replies, n: nat)
  {
    forall i :: 0 <= i < n ==> BindReply(r, i) == SQLITE_OK
  }

  /** Every native call of a run with `n` placeholders succeeds. */
  predicate Succeeds(r: Replies, n: nat)
  {
    r.prepare == SQLITE_OK && BindsAccepted(r, n) && r.step.Executes?
  }

  /** How the engine reads a blob bound with
      `sqlite3_bind_blob(statement, slot, buffer, length, nil)`. */
  type BlobReader = (Bytes, int) -> Bytes

  /** The text the engine reads from a string bound with
      `sqlite3_bind_text(statement, slot, text, -1, nil)`: a negative length
      means "up to the NUL terminator", so everything from the first NUL
      character on is cut off. */
  function BoundText(s: string): (t: string)
    ensures '\0' !in t
    ensures t <= s
    ensures |t| < |s| ==> s[|t|] == '\0'
    decreases |s|
  {
    if |s| == 0 || s[0] == '\0' then "" else [s[0]] + BoundText(s[1..])
  }

  /** A key without NUL characters is bound whole. */
  lemma BoundTextWhole(s: string)
    requires '\0' !in s
    ensures BoundText(s) == s
  {
  }

  /** Keys that agree up to a NUL character are the same key to the engine. */
  lemma {:induction false} BoundTextStopsAtNul(a: string, rest: string)
    requires '\0' !in a
    ensures BoundText(a + ['\0'] + rest) == a
  {
    var s := a + ['\0'] + rest;
    var t := BoundText(s);
    assert s[|a|] == '\0';
    assert forall i :: 0 <= i < |a| ==> s[i] == a[i];
  }

  /** A value bound to a placeholder. */
  datatype Arg = Text(text: string) | Blob(buffer: Bytes, length: int)

  /** One call into the native library, with the code it returned. */
  datatype Call =
    | Open(path: string, rc: int, live: bool)        // sqlite3_open; live: a non-nil handle came back
    | Key(material: Bytes, rc: int)                   // sqlite3_key
    | Close                                           // sqlite3_close
    | Prepare(sql: string, rc: int)                   // sqlite3_prepare_v2
    | Bind(slot: nat, arg: Arg, rc: int)              // sqlite3_bind_text, sqlite3_bind_blob
    | Step(rc: int)                                   // sqlite3_step
    | Column                                          // sqlite3_column_blob, sqlite3_column_bytes
    | Finalize                                        // sqlite3_finalize

  /** The two kinds of native resource: a connection and a prepared statement. */
  datatype Handle = DbHandle | StmtHandle

  predicate Acquires(c: Call, h: Handle)
  {
    match h
    case DbHandle => c.Open? && c.live
    case StmtHandle => c.Prepare? && c.rc == SQLITE_OK
  }

  predicate Releases(c: Call, h: Handle)
  {
    match h
    case DbHandle => c.Close?
    case StmtHandle => c.Finalize?
  }

  predicate Event(c: Call, h: Handle, releasing: bool)
  {
    if releasing then Releases(c, h) else Acquires(c, h)
  }

  /** How many calls of the log acquire (or release) a handle of kind `h`. */
  function Count(calls: seq<Call>, h: Handle, releasing: bool): (n: nat)
  {
    if |calls| == 0 then 0
    else (if Event(calls[0], h, releasing) then 1 else 0) + Count(calls[1..], h, releasing)
  }

  function Acquired(calls: seq<Call>, h: Handle): (n: nat)
  {
    Count(calls, h, false)
  }

  function Released(calls: seq<Call>, h: Handle): (n: nat)
  {
    Count(calls, h, true)
  }

  /** Every handle of kind `h` the log acquires, it also releases. */
  predicate Balanced(calls: seq<Call>, h: Handle)
  {
    Acquired(calls, h) == Released(calls, h)
  }

  lemma {:induction false} CountConcat(a: seq<Call>, b: seq<Call>, h: Handle, releasing: bool)
    ensures Count(a + b, h, releasing) == Count(a, h, releasing) + Count(b, h, releasing)
  {
    if |a| > 0 {
      assert (a + b)[0] == a[0];
      assert (a + b)[1..] == a[1..] + b;
      CountConcat(a[1..], b, h, releasing);
    } else {
      assert a + b == b;
    }
  }

  lemma {:induction false} CountNone(calls: seq<Call>, h: Handle, releasing: bool)
    requires forall i :: 0 <= i < |calls| ==> !Event(calls[i], h, releasing)
    ensures Count(calls, h, releasing) == 0
  {
    if |calls| > 0 {
      CountNone(calls[1..], h, releasing);
    }
  }

  /** Concatenating two balanced logs gives a balanced log. */
  lemma BalancedConcat(a: seq<Call>, b: seq<Call>, h: Handle)
    requires Balanced(a, h) && Balanced(b, h)
    ensures Balanced(a + b, h)
  {
    CountConcat(a, b, h, false);
    CountConcat(a, b, h, true);
  }

  predicate IsStatementCall(c: Call)
  {
    c.Prepare? || c.Bind? || c.Step? || c.Column? || c.Finalize?
  }

  /** The log of one statement's life as a `defer { sqlite3_finalize(...) }`
      block shapes it: it begins with the one prepare; if that produced a
      statement, the log ends with the one finalize and nothing else finalizes;
      if it did not, nothing follows. The connection is not touched. */
  predicate StatementScoped(calls: seq<Call>)
  {
    && |calls| >= 1
    && calls[0].Prepare?
    && (forall i :: 0 <= i < |calls| ==> IsStatementCall(calls[i]))
    && (forall i :: 1 <= i < |calls| ==> !calls[i].Prepare?)
    && (forall i :: 0 <= i < |calls| - 1 ==> !calls[i].Finalize?)
    && (if calls[0].rc == SQLITE_OK then calls[|calls| - 1].Finalize? else |calls| == 1)
  }

  /** A scoped statement log prepares at most one statement, finalizes it exactly
      once when it exists and never otherwise, and leaves the connection alone. */
  lemma ScopedFinalizesOnce(calls: seq<Call>)
    requires StatementScoped(calls)
    ensures Acquired(calls, StmtHandle) == Released(calls, StmtHandle)
    ensures Acquired(calls, StmtHandle) == (if calls[0].rc == SQLITE_OK then 1 else 0)
    ensures Acquired(calls, DbHandle) == 0 && Released(calls, DbHandle) == 0
  {
    var rest := calls[1..];
    assert calls == [calls[0]] + rest;
    CountConcat([calls[0]], rest, StmtHandle, false);
    CountConcat([calls[0]], rest, StmtHandle, true);
    CountNone(calls, DbHandle, false);
    CountNone(calls, DbHandle, true);
    CountNone(rest, StmtHandle, false);
    if calls[0].rc == SQLITE_OK {
      var body := rest[..|rest| - 1];
      assert rest == body + [Finalize];
      CountNone(body, StmtHandle, true);
      CountConcat(body, [Finalize], StmtHandle, true);
    }
  }

  /** The log of a statement that was prepared, used without being re-prepared
      or finalized, then finalized once, is scoped. */
  lemma ScopedRun(sql: string, middle: seq<Call>)
    requires forall i :: 0 <= i < |middle| ==> IsStatementCall(middle[i]) && !middle[i].Prepare? && !middle[i].Finalize?
    ensures StatementScoped([Prepare(sql, SQLITE_OK)] + middle + [Finalize])
  {
    var calls := [Prepare(sql, SQLITE_OK)] + middle + [Finalize];
    assert forall i :: 1 <= i <= |middle| ==> calls[i] == middle[i - 1];
  }
}
