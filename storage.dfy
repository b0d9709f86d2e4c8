/**
 * `chrome.storage.local` as the extension uses it: a key-value area shared by
 * the popup and the content script, three keys, JavaScript truthiness of the
 * values read back, and the change sets that `chrome.storage.onChanged`
 * delivers after a write.
 */
module Storage {
  import opened Wrappers

  /** The values the extension stores: the flag, the revert reason and the raw block list. */
  datatype StoreValue = BoolValue(b: bool) | StringValue(s: string) | ListValue(items: seq<string>)

  type Items = map<string, StoreValue>

  const BlockListKey: string := "block_list"
  const StaffFilterKey: string := "staff_filter_on"
  const StaffMessageKey: string := "staff_filter_message"

  /** The reason the content script records when it turns staff-only mode off by itself. */
  const RevertReason: string := "No staff messages present; staff filter reverted to Off."

  /** `res[key]`: None stands for `undefined`. */
  function Get(items: Items, key: string): (v: Option<StoreValue>) {
    if key in items then Some(items[key]) else None
  }

  /** `Boolean(v)`: false exactly for `undefined`, `false` and the empty string; a list is always truthy. */
  predicate Truthy(v: Option<StoreValue>)
    ensures !Truthy(v) <==> v == None || v == Some(BoolValue(false)) || v == Some(StringValue(""))
  {
    match v
    case None => false
    case Some(BoolValue(b)) => b
    case Some(StringValue(s)) => s != ""
    case Some(ListValue(_)) => true
  }

  /** `res.block_list || []` */
  function BlockListIn(items: Items): (list: seq<string>)
    ensures BlockListKey in items && items[BlockListKey].ListValue? ==> list == items[BlockListKey].items
    ensures BlockListKey !in items ==> list == []
  {
    match Get(items, BlockListKey)
    case Some(ListValue(list)) => list
    case _ => []
  }

  /** `chrome.storage.local.set(update)`: every key of `update` is overwritten, the rest kept. */
  function Set(items: Items, update: Items): (r: Items)
    ensures r.Keys == items.Keys + update.Keys
    ensures forall k :: k in update ==> r[k] == update[k]
    ensures forall k :: k in items && k !in update ==> r[k] == items[k]
  {
    items + update
  }

  /** The write the content script issues when no staff message is present in staff-only mode. */
  function RevertUpdate(): (update: Items) {
    map[StaffFilterKey := BoolValue(false), StaffMessageKey := StringValue(RevertReason)]
  }

  /**
   * The change set `onChanged` reports for a write that took the area from
   * `before` to `after`: each key whose value differs, with its new value
   * (None when the key was removed).
   */
  function Changes(before: Items, after: Items): (changes: map<string, Option<StoreValue>>)
    ensures forall k :: k in changes <==> Get(before, k) != Get(after, k)
    ensures forall k :: k in changes ==> changes[k] == Get(after, k)
  {
    map k | k in before.Keys + after.Keys && Get(before, k) != Get(after, k) :: Get(after, k)
  }

  /** After the revert write the flag reads false and a non-empty reason is stored. */
  lemma RevertRecordsReason(items: Items)
    ensures !Truthy(Get(Set(items, RevertUpdate()), StaffFilterKey))
    ensures Get(Set(items, RevertUpdate()), StaffMessageKey) == Some(StringValue(RevertReason))
    ensures RevertReason != ""
  {
  }

  /** The revert write is a change of `staff_filter_on` whenever the stored flag was on. */
  lemma RevertChangesFlag(items: Items)
    requires Truthy(Get(items, StaffFilterKey))
    ensures StaffFilterKey in Changes(items, Set(items, RevertUpdate()))
  {
    RevertRecordsReason(items);
  }

  /** The area itself, one object shared by every script of the extension. */
  class StorageArea {
    var items: Items

    constructor (items: Items)
      ensures this.items == items
    {
      this.items := items;
    }
  }
}
