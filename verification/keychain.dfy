/** The keychain as `SQLiteKeyValueStore` uses it: generic-password items
    addressed by account alias, queried with `SecItemCopyMatching` and written
    with `SecItemDelete` followed by `SecItemAdd`. Whether a call faults is an
    input; what a fault-free call does follows the Security framework's contract. */
module Keychain {
  import opened Common

  /** Generic-password items by account alias. */
  type Items = map<string, Bytes>

  /** `noErr` / `errSecSuccess`. */
  const errSecSuccess: int := 0
  const errSecDuplicateItem: int := -25299
  const errSecItemNotFound: int := -25300
  const errSecInteractionNotAllowed: int := -25308

  /** A status other than success with which a keychain call can fail. */
  type Fault = s: int | s != errSecSuccess witness errSecInteractionNotAllowed

  /** Whether `SecItemDelete` and `SecItemAdd` fault, and how. */
  datatype SaveReplies = SaveReplies(deleteFault: Option<Fault>, addFault: Option<Fault>)

  /** The status a keychain call returned and the items afterwards. */
  datatype Outcome = Outcome(status: int, items: Items)

  /** `SecItemDelete` for one alias. */
  function Delete(items: Items, alias: string, fault: Option<Fault>): (o: Outcome)
    ensures fault.None? ==> o.items == items - {alias}
    ensures fault.None? ==> (o.status == errSecSuccess <==> alias in items)
    ensures fault.Some? ==> o.items == items && o.status != errSecSuccess
  {
    match fault
    case Some(f) => Outcome(f, items)
    case None =>
      if alias in items then Outcome(errSecSuccess, items - {alias})
      else Outcome(errSecItemNotFound, items)
  }

  /** `SecItemAdd` for one alias: an alias that already has an item is refused. */
  function Add(items: Items, alias: string, data: Bytes, fault: Option<Fault>): (o: Outcome)
    ensures o.status == errSecSuccess <==> alias !in items && fault.None?
    ensures o.status == errSecSuccess ==> o.items == items[alias := data]
    ensures o.status != errSecSuccess ==> o.items == items
    ensures alias in items ==> o.status == errSecDuplicateItem
  {
    if alias in items then Outcome(errSecDuplicateItem, items)
    else
      match fault
      case Some(f) => Outcome(f, items)
      case None => Outcome(errSecSuccess, items[alias := data])
  }

  /** `savetoKeychain(key:data:)`: delete any item for the alias, then add the
      new one, returning the status of the add. */
  function Save(items: Items, alias: string, data: Bytes, r: SaveReplies): (o: Outcome)
    ensures o.status == errSecSuccess <==> (alias !in items || r.deleteFault.None?) && r.addFault.None?
    ensures o.status == errSecSuccess ==> o.items == items[alias := data]
    ensures o.status != errSecSuccess ==> o.items == items || o.items == items - {alias}
    ensures o.items - {alias} == items - {alias}
  {
    var deleted := Delete(items, alias, r.deleteFault);
    Add(deleted.items, alias, data, r.addFault)
  }

  /** `loadFromKeychain(key:)`: the item's data, or nil when there is none or the query faults. */
  function Load(items: Items, alias: string, fault: Option<Fault>): (d: Option<Bytes>)
    ensures d.Some? <==> alias in items && fault.None?
    ensures d.Some? ==> d.value == items[alias]
  {
    if alias in items && fault.None? then Some(items[alias]) else None
  }

  /** Saving succeeds whether or not the alias already has an item, because the
      old item is deleted first; adding alone would be refused as a duplicate. */
  lemma SaveReplacesExisting(items: Items, alias: string, data: Bytes)
    requires alias in items
    ensures Save(items, alias, data, SaveReplies(None, None)).status == errSecSuccess
    ensures Add(items, alias, data, None).status == errSecDuplicateItem
  {
  }

  /** A successful save is read back by a fault-free load. */
  lemma LoadAfterSave(items: Items, alias: string, data: Bytes, r: SaveReplies)
    requires Save(items, alias, data, r).status == errSecSuccess
    ensures Load(Save(items, alias, data, r).items, alias, None) == Some(data)
  {
  }
}
