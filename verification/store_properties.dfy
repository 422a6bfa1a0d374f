/** Properties that relate several calls on one store: sessions of reads,
    writes and clears; round trips; erasure; degraded mode; handle ownership
    over a store's whole lifetime; and passphrase stability across launches. */
module StoreProperties {
  import opened Common
  import Native
  import Utf8
  import Keychain
  import opened DbWrapper
  import opened KeyValueStore

  /** One call on the store's public surface, with the engine's replies to it. */
  datatype Op =
    | Get(key: string, replies: Native.Replies)
    | Set(key: string, data: Option<Bytes>, replies: Native.Replies)
    | Clear(delete: Native.Replies, vacuum: Native.Replies)
    | FlushAll(delete: Native.Replies, vacuum: Native.Replies)

  /** One call on the store. */
  function Apply(s: Store, op: Op, readBlob: Native.BlobReader): (u: Update)
    ensures u.store.db.Some? <==> s.db.Some?
  {
    match op
    case Get(key, r) => Update(s, GetData(s, key, r).calls)
    case Set(key, data, r) => SetData(s, data, key, r, readBlob)
    case Clear(d, v) => KeyValueStore.ClearAll(s, d, v)
    case FlushAll(d, v) => Flush(s, d, v)
  }

  /** The store after a session of calls, with every native call they made.
      No call opens or closes the connection, so a degraded store stays degraded
      and a live one stays live. */
  function Session(s: Store, ops: seq<Op>, readBlob: Native.BlobReader): (u: Update)
    ensures u.store.db.Some? <==> s.db.Some?
    ensures s.db.None? ==> u == Update(s, [])
    decreases |ops|
  {
    if |ops| == 0 then Update(s, [])
    else
      var first := Apply(s, ops[0], readBlob);
      var rest := Session(first.store, ops[1..], readBlob);
      Update(rest.store, first.calls + rest.calls)
  }

  /** A statement log that is scoped or empty releases every statement and touches no connection. */
  lemma ScopedOrEmptyBalanced(calls: seq<Native.Call>)
    requires calls == [] || Native.StatementScoped(calls)
    ensures Native.Balanced(calls, Native.StmtHandle)
    ensures Native.Acquired(calls, Native.DbHandle) == 0 && Native.Released(calls, Native.DbHandle) == 0
  {
    if calls != [] {
      Native.ScopedFinalizesOnce(calls);
    }
  }

  /** One public call finalizes every statement it prepares and leaves the connection open. */
  lemma ApplyBalanced(s: Store, op: Op, readBlob: Native.BlobReader)
    ensures Native.Balanced(Apply(s, op, readBlob).calls, Native.StmtHandle)
    ensures Native.Balanced(Apply(s, op, readBlob).calls, Native.DbHandle)
    ensures Native.Acquired(Apply(s, op, readBlob).calls, Native.DbHandle) == 0
  {
    var calls := Apply(s, op, readBlob).calls;
    match op
    case Get(key, r) =>
      ScopedOrEmptyBalanced(calls);
    case Set(key, data, r) =>
      ScopedOrEmptyBalanced(calls);
    case Clear(d, v) =>
      ClearBalanced(s, d, v);
    case FlushAll(d, v) =>
      ClearBalanced(s, d, v);
  }

  lemma ClearBalanced(s: Store, d: Native.Replies, v: Native.Replies)
    ensures Native.Balanced(KeyValueStore.ClearAll(s, d, v).calls, Native.StmtHandle)
    ensures Native.Balanced(KeyValueStore.ClearAll(s, d, v).calls, Native.DbHandle)
    ensures Native.Acquired(KeyValueStore.ClearAll(s, d, v).calls, Native.DbHandle) == 0
  {
    var calls := KeyValueStore.ClearAll(s, d, v).calls;
    if s.db.Some? {
      var n :| 0 < n < |calls| && Native.StatementScoped(calls[..n]) && Native.StatementScoped(calls[n..]);
      assert calls == calls[..n] + calls[n..];
      ScopedOrEmptyBalanced(calls[..n]);
      ScopedOrEmptyBalanced(calls[n..]);
      Native.BalancedConcat(calls[..n], calls[n..], Native.StmtHandle);
      Native.BalancedConcat(calls[..n], calls[n..], Native.DbHandle);
      Native.CountConcat(calls[..n], calls[n..], Native.DbHandle, false);
    }
  }

  /** Across any session, every prepared statement is finalized and the
      connection is neither opened nor closed. */
  lemma {:induction false} SessionBalanced(s: Store, ops: seq<Op>, readBlob: Native.BlobReader)
    ensures Native.Balanced(Session(s, ops, readBlob).calls, Native.StmtHandle)
    ensures Native.Acquired(Session(s, ops, readBlob).calls, Native.DbHandle) == 0
    ensures Native.Released(Session(s, ops, readBlob).calls, Native.DbHandle) == 0
    decreases |ops|
  {
    if |ops| > 0 {
      var first := Apply(s, ops[0], readBlob);
      ApplyBalanced(s, ops[0], readBlob);
      SessionBalanced(first.store, ops[1..], readBlob);
      var rest := Session(first.store, ops[1..], readBlob);
      Native.BalancedConcat(first.calls, rest.calls, Native.StmtHandle);
      Native.CountConcat(first.calls, rest.calls, Native.DbHandle, false);
      Native.CountConcat(first.calls, rest.calls, Native.DbHandle, true);
    }
  }

  /** Handle ownership over a store's whole lifetime: `init(with:)`, any session,
      then `deinit` of the wrapper when there is one. Every statement is
      finalized exactly once and every non-nil connection handle closed exactly once. */
  lemma LifetimeReleasesEverything(l: Launch, ops: seq<Op>, readBlob: Native.BlobReader)
    ensures var i := Init(l);
      var u := Session(i.store, ops, readBlob);
      var end := if u.store.db.Some? then Deinit(u.store.db.value) else [];
      Native.Balanced(i.calls + u.calls + end, Native.StmtHandle) && Native.Balanced(i.calls + u.calls + end, Native.DbHandle)
  {
    var i := Init(l);
    var u := Session(i.store, ops, readBlob);
    var end := if u.store.db.Some? then Deinit(u.store.db.value) else [];
    var o := Open(l.path, i.passphrase, l.file, l.open);
    OpenLeaksNoHandle(l.path, i.passphrase, l.file, l.open);
    var schema := if i.store.db.Some? then CreateTable(i.store.db.value, SchemaSql, l.schema).calls else [];
    ScopedOrEmptyBalanced(schema);
    Native.CountNone(o.calls, Native.StmtHandle, false);
    Native.CountNone(o.calls, Native.StmtHandle, true);
    Native.BalancedConcat(o.calls, schema, Native.StmtHandle);
    Native.CountConcat(o.calls, schema, Native.DbHandle, false);
    Native.CountConcat(o.calls, schema, Native.DbHandle, true);
    SessionBalanced(i.store, ops, readBlob);
    Native.CountConcat(i.calls, u.calls, Native.DbHandle, false);
    Native.CountConcat(i.calls, u.calls, Native.DbHandle, true);
    Native.BalancedConcat(i.calls, u.calls, Native.StmtHandle);
    Native.CountConcat(i.calls + u.calls, end, Native.DbHandle, false);
    Native.CountConcat(i.calls + u.calls, end, Native.DbHandle, true);
    Native.CountNone(end, Native.StmtHandle, false);
    Native.CountNone(end, Native.StmtHandle, true);
    Native.BalancedConcat(i.calls + u.calls, end, Native.StmtHandle);
  }

  /** Every wrapper operation finalizes its statement exactly once when
      `sqlite3_prepare_v2` produced one, and never when it did not. */
  lemma WrapperFinalizesOnce(c: Connection, sql: string, key: string, data: Bytes, r: Native.Replies, readBlob: Native.BlobReader)
    ensures FinalizedOnce(CreateTable(c, sql, r).calls, r)
    ensures FinalizedOnce(InsertKeyValue(c, key, data, r, readBlob).calls, r)
    ensures FinalizedOnce(GetValue(c, key, r).calls, r)
    ensures FinalizedOnce(DbWrapper.ClearAll(c, r).calls, r)
    ensures FinalizedOnce(Vacuum(c, r).calls, r)
  {
    Native.ScopedFinalizesOnce(CreateTable(c, sql, r).calls);
    Native.ScopedFinalizesOnce(InsertKeyValue(c, key, data, r, readBlob).calls);
    Native.ScopedFinalizesOnce(GetValue(c, key, r).calls);
    Native.ScopedFinalizesOnce(DbWrapper.ClearAll(c, r).calls);
    Native.ScopedFinalizesOnce(Vacuum(c, r).calls);
  }

  predicate FinalizedOnce(calls: seq<Native.Call>, r: Native.Replies)
  {
    && Native.Acquired(calls, Native.StmtHandle) == (if r.prepare == Native.SQLITE_OK then 1 else 0)
    && Native.Released(calls, Native.StmtHandle) == Native.Acquired(calls, Native.StmtHandle)
  }

  /** In degraded mode every read in a session is nil and nothing changes. */
  lemma DegradedStoreIsInert(s: Store, key: string, data: Option<Bytes>, r: Native.Replies, d: Native.Replies, v: Native.Replies,
                             ops: seq<Op>, readBlob: Native.BlobReader)
    requires s.db.None?
    ensures GetData(s, key, r).value.None?
    ensures SetData(s, data, key, r, readBlob).store == s
    ensures KeyValueStore.ClearAll(s, d, v).store == s && Flush(s, d, v).store == s
    ensures Session(s, ops, readBlob) == Update(s, [])
  {
  }

  /** Engine assumption behind every round trip: a buffer bound with length -1
      is read back as exactly its bytes. Nothing in the wrapper guarantees this. */
  predicate FaithfulBlob(readBlob: Native.BlobReader, data: Bytes)
  {
    readBlob(data, -1) == data
  }

  /** Round trip: after a successful write of non-empty bytes, a fault-free read
      of the same key returns them. */
  lemma SetThenGet(s: Store, key: string, data: Bytes, w: Native.Replies, r: Native.Replies, readBlob: Native.BlobReader)
    requires s.db.Some? && |data| > 0 && FaithfulBlob(readBlob, data)
    requires Native.Succeeds(w, 3) && Native.Succeeds(r, 1)
    ensures GetData(SetData(s, Some(data), key, w, readBlob).store, key, r).value == Some(data)
  {
  }

  /** Overwrite: the second of two writes to one key wins; there is one value per key. */
  lemma SetSetThenGet(s: Store, key: string, v1: Bytes, v2: Bytes, w1: Native.Replies, w2: Native.Replies,
                      r: Native.Replies, readBlob: Native.BlobReader)
    requires s.db.Some? && |v2| > 0 && FaithfulBlob(readBlob, v2)
    requires Native.Succeeds(w2, 3) && Native.Succeeds(r, 1)
    ensures var s1 := SetData(s, Some(v1), key, w1, readBlob).store;
      GetData(SetData(s1, Some(v2), key, w2, readBlob).store, key, r).value == Some(v2)
  {
  }

  /** An empty `Data` reaches the engine like any other buffer. Read back
      faithfully it is a zero-length blob, which `getValue` reports as nil, so
      for readers a successful empty write acts as a delete of the key. */
  lemma EmptyWriteReadsNil(s: Store, key: string, w: Native.Replies, r: Native.Replies, readBlob: Native.BlobReader)
    requires s.db.Some? && FaithfulBlob(readBlob, []) && Native.Succeeds(w, 3)
    ensures Native.BoundText(key) in SetData(s, Some([]), key, w, readBlob).store.db.value.rows
    ensures GetData(SetData(s, Some([]), key, w, readBlob).store, key, r).value.None?
  {
  }

  /** A nil write is not a delete: the key keeps whatever it held. */
  lemma NilWriteKeepsValue(s: Store, key: string, w: Native.Replies, r: Native.Replies, readBlob: Native.BlobReader)
    ensures GetData(SetData(s, None, key, w, readBlob).store, key, r) == GetData(s, key, r)
  {
  }

  /** A failed write is swallowed and leaves every key as it was. */
  lemma FailedWriteChangesNothing(s: Store, key: string, data: Bytes, w: Native.Replies, readBlob: Native.BlobReader)
    requires s.db.Some? && !Native.Succeeds(w, 3)
    ensures SetData(s, Some(data), key, w, readBlob).store == s
  {
  }

  /** Erasure: after a clear whose delete succeeded, every key reads nil, whatever the vacuum did. */
  lemma ClearThenGet(s: Store, d: Native.Replies, v: Native.Replies, key: string, r: Native.Replies)
    requires s.db.Some? && Native.Succeeds(d, 0)
    ensures GetData(KeyValueStore.ClearAll(s, d, v).store, key, r).value.None?
    ensures GetData(Flush(s, d, v).store, key, r).value.None?
  {
  }

  /** A key never written reads nil. */
  lemma AbsentKeyReadsNil(s: Store, key: string, r: Native.Replies)
    requires s.db.Some? ==> Native.BoundText(key) !in s.db.value.rows
    ensures GetData(s, key, r).value.None?
  {
  }

  /** Keys are bound with length -1, so a key with a NUL character addresses the
      row of its text before the NUL: writing `a + "\0" + rest` is read back
      under `a`. */
  lemma NulSuffixAliasesKey(s: Store, a: string, rest: string, data: Bytes, w: Native.Replies, r: Native.Replies,
                            readBlob: Native.BlobReader)
    requires s.db.Some? && '\0' !in a && |data| > 0 && FaithfulBlob(readBlob, data)
    requires Native.Succeeds(w, 3) && Native.Succeeds(r, 1)
    ensures GetData(SetData(s, Some(data), a + ['\0'] + rest, w, readBlob).store, a, r).value == Some(data)
  {
    Native.BoundTextStopsAtNul(a, rest);
    Native.BoundTextWhole(a);
  }

  /** The session leaves `key` alone: no clear, no flush, and no write to a key
      the engine reads as the same text. */
  predicate Spares(ops: seq<Op>, key: string)
  {
    forall i :: 0 <= i < |ops| ==> !ops[i].Clear? && !ops[i].FlushAll? && !(ops[i].Set? && Native.BoundText(ops[i].key) == Native.BoundText(key))
  }

  /** A key's row survives any session that spares it, failures included. */
  lemma {:induction false} SparedKeySurvives(s: Store, ops: seq<Op>, key: string, readBlob: Native.BlobReader)
    requires s.db.Some? && Spares(ops, key)
    ensures var after := Session(s, ops, readBlob).store.db.value.rows;
      var k := Native.BoundText(key);
      (k in after <==> k in s.db.value.rows) && (k in after ==> after[k] == s.db.value.rows[k])
    decreases |ops|
  {
    if |ops| > 0 {
      var first := Apply(s, ops[0], readBlob);
      assert Spares(ops[1..], key) by {
        forall i | 0 <= i < |ops[1..]|
          ensures !ops[1..][i].Clear? && !ops[1..][i].FlushAll? && !(ops[1..][i].Set? && Native.BoundText(ops[1..][i].key) == Native.BoundText(key))
        {
          assert ops[1..][i] == ops[i + 1];
        }
      }
      assert ops[0].Get? || ops[0].Set?;
      SparedKeySurvives(first.store, ops[1..], key, readBlob);
    }
  }

  /** The round trip of the store's contract: a successful write of `data` to
      `key` is read back, as long as what happens in between spares the key. */
  lemma {:induction false} WrittenValueSurvivesSession(s: Store, key: string, data: Bytes, w: Native.Replies, ops: seq<Op>,
                                    r: Native.Replies, readBlob: Native.BlobReader)
    requires s.db.Some? && |data| > 0 && FaithfulBlob(readBlob, data)
    requires Native.Succeeds(w, 3) && Native.Succeeds(r, 1) && Spares(ops, key)
    ensures var written := SetData(s, Some(data), key, w, readBlob).store;
      GetData(Session(written, ops, readBlob).store, key, r).value == Some(data)
  {
    var written := SetData(s, Some(data), key, w, readBlob).store;
    SparedKeySurvives(written, ops, key, readBlob);
  }

  /** Typed round trip: a value whose encoding succeeds, is non-empty and decodes
      back to it, is read back by the typed getter after a successful write. */
  lemma TypedSetThenGet<T>(s: Store, key: string, x: T, w: Native.Replies, r: Native.Replies,
                           encode: Option<T> -> Option<Bytes>, decode: Bytes -> Option<T>, readBlob: Native.BlobReader)
    requires s.db.Some? && encode(Some(x)).Some? && |encode(Some(x)).value| > 0
    requires decode(encode(Some(x)).value) == Some(x) && FaithfulBlob(readBlob, encode(Some(x)).value)
    requires Native.Succeeds(w, 3) && Native.Succeeds(r, 1)
    ensures TypedGet(TypedSet(s, key, Some(x), w, encode, readBlob).store, key, r, decode).value == Some(x)
  {
    SetThenGet(s, key, encode(Some(x)).value, w, r, readBlob);
  }

  /** A value that fails to encode writes nothing; stored bytes that fail to decode read as nil. */
  lemma TypedFailuresAreSilent<T>(s: Store, key: string, x: Option<T>, w: Native.Replies, r: Native.Replies,
                                  encode: Option<T> -> Option<Bytes>, decode: Bytes -> Option<T>, readBlob: Native.BlobReader)
    requires encode(x).None?
    requires GetData(s, key, r).value.Some? ==> decode(GetData(s, key, r).value.value).None?
    ensures TypedSet(s, key, x, w, encode, readBlob).store == s
    ensures TypedGet(s, key, r, decode).value.None?
  {
  }

  /** Passphrase stability: the UUID a first launch saves to the keychain is the
      passphrase every later launch that can read the keychain decodes. */
  lemma PassphraseStableAcrossLaunches(first: Launch, next: Launch)
    requires DbKeyAlias !in first.keychain
    requires Keychain.Save(first.keychain, DbKeyAlias, Utf8.Encode(first.uuid), first.save).status == Keychain.errSecSuccess
    requires next.keychain == Init(first).keychain && next.loadFault.None?
    ensures Init(next).passphrase == Init(first).passphrase == first.uuid
    ensures Init(next).keychain == Init(first).keychain
  {
    Utf8.DecodeEncode(first.uuid);
  }

  /** When saving the fresh UUID fails, the launch still opens the database
      with it, and the keychain holds no passphrase for the next launch. */
  lemma UnsavedPassphraseStillUsed(l: Launch)
    requires DbKeyAlias !in l.keychain
    requires Keychain.Save(l.keychain, DbKeyAlias, Utf8.Encode(l.uuid), l.save).status != Keychain.errSecSuccess
    ensures Init(l).passphrase == l.uuid
    ensures DbKeyAlias !in Init(l).keychain
    ensures l.open.open == Native.SQLITE_OK ==> Native.Key(KeyMaterial(l.uuid), l.open.key) in Init(l).calls
  {
  }

  /** A keychain read that faults while the item exists makes the launch pick a
      fresh UUID and, when the save succeeds, replace the stored passphrase. */
  lemma ReadFaultReplacesStoredPassphrase(l: Launch)
    requires DbKeyAlias in l.keychain && l.loadFault.Some?
    requires Keychain.Save(l.keychain, DbKeyAlias, Utf8.Encode(l.uuid), l.save).status == Keychain.errSecSuccess
    ensures Init(l).passphrase == l.uuid
    ensures Init(l).keychain == l.keychain[DbKeyAlias := Utf8.Encode(l.uuid)]
  {
  }
}
