/**
 * The extension's persistent settings area (browser.storage.local): a record
 * from setting names to values. The background script, the content script,
 * the options page and the popup all read it; the options page and the popup
 * write it through a shared Store object.
 */
module Storage {
  import opened Wrappers

  /** The setting names the core reads or writes. */
  datatype Key =
    | BlockedDomains | BlockedKeywords | AllowedSites | BlockPageMessage
    | IsBlockingEnabled | Theme | PasswordHash | UsageStats

  /** The names under which the settings are stored. */
  function Name(k: Key): string {
    match k
    case BlockedDomains => "blockedDomains"
    case BlockedKeywords => "blockedKeywords"
    case AllowedSites => "allowedSites"
    case BlockPageMessage => "blockPageMessage"
    case IsBlockingEnabled => "isBlockingEnabled"
    case Theme => "theme"
    case PasswordHash => "passwordHash"
    case UsageStats => "usageStats"
  }

  /** The kinds of value the extension stores: lists of strings, strings,
      booleans and the usage-statistics object (of which only blocksToday is
      read). */
  datatype Value =
    | List(items: seq<string>)
    | Str(text: string)
    | Flag(on: bool)
    | Stats(blocksToday: int)

  type Area = map<Key, Value>

  /** The value kind each setting is written with. */
  predicate HasKindOf(k: Key, v: Value) {
    match k
    case BlockedDomains | BlockedKeywords | AllowedSites => v.List?
    case BlockPageMessage | Theme | PasswordHash => v.Str?
    case IsBlockingEnabled => v.Flag?
    case UsageStats => v.Stats?
  }

  predicate WellTyped(m: Area) {
    forall k :: k in m ==> HasKindOf(k, m[k])
  }

  /** Reading a list setting; absent reads as None. */
  function ListAt(m: Area, k: Key): (r: Option<seq<string>>)
    ensures r.Some? <==> k in m && m[k].List?
    ensures r.Some? ==> m[k] == List(r.value)
  {
    if k in m && m[k].List? then Some(m[k].items) else None
  }

  /** Reading a boolean setting; absent reads as None. */
  function FlagAt(m: Area, k: Key): (r: Option<bool>)
    ensures r.Some? <==> k in m && m[k].Flag?
    ensures r.Some? ==> m[k] == Flag(r.value)
  {
    if k in m && m[k].Flag? then Some(m[k].on) else None
  }

  /** Reading a string setting; absent reads as None. */
  function StrAt(m: Area, k: Key): (r: Option<string>)
    ensures r.Some? <==> k in m && m[k].Str?
    ensures r.Some? ==> m[k] == Str(r.value)
  {
    if k in m && m[k].Str? then Some(m[k].text) else None
  }

  /** storage.local.get(defaults): exactly the defaults' keys, each holding
      the stored value when there is one and the default otherwise. */
  function GetWithDefaults(stored: Area, defaults: Area): (r: Area)
    ensures r.Keys == defaults.Keys
    ensures forall k :: k in defaults && k in stored ==> r[k] == stored[k]
    ensures forall k :: k in defaults && k !in stored ==> r[k] == defaults[k]
  {
    map k | k in defaults :: if k in stored then stored[k] else defaults[k]
  }

  /** Reading well-typed settings with well-typed defaults gives well-typed
      settings. */
  lemma GetWithDefaultsWellTyped(stored: Area, defaults: Area)
    requires WellTyped(stored) && WellTyped(defaults)
    ensures WellTyped(GetWithDefaults(stored, defaults))
  {
  }

  /** The storage area shared by the extension's pages. storage.local.set(patch)
      is `data := data + patch`, remove(k) is `data := data - {k}` and clear()
      is `data := map[]`. */
  class Store {
    var data: Area

    constructor (initial: Area)
      ensures data == initial
    {
      data := initial;
    }
  }
}
