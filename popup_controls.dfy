/**
 * The popup page: editing the block list (stored in `chrome.storage.local`,
 * or in a cookie when storage is unavailable), the staff-only flag kept in a
 * cookie and mirrored into storage, and the listener that keeps the cookie in
 * step with changes the content script makes.
 */
module PopupControls {
  import opened Wrappers
  import opened Text
  import opened Storage
  import opened Cookies
  import opened BlockFilter

  const BlockCookie: string := "block_list"
  const FilterCookie: string := "staff_filter_on"

  /** `on ? "1" : "0"`, the flag as the cookie holds it. */
  function FlagText(on: bool): (t: string)
    ensures Token(t) && t != ""
    ensures t == "1" <==> on
    ensures t == "0" <==> !on
  {
    if on then "1" else "0"
  }

  /** `list.splice(idx, 1)` for an index from the rendered list: one element goes, or none when idx is past the end. */
  function Spliced(list: seq<string>, idx: nat): (r: seq<string>)
    ensures idx < |list| ==> |r| == |list| - 1
    ensures idx < |list| ==> forall i :: 0 <= i < idx ==> r[i] == list[i]
    ensures idx < |list| ==> forall i :: idx <= i < |r| ==> r[i] == list[i + 1]
    ensures idx >= |list| ==> r == list
  {
    if idx < |list| then list[..idx] + list[idx + 1..] else list
  }

  /** Removing entry idx takes exactly that one occurrence out of the list. */
  lemma SplicedRemovesOne(list: seq<string>, idx: nat)
    requires idx < |list|
    ensures multiset(Spliced(list, idx)) + multiset{list[idx]} == multiset(list)
  {
    assert list == list[..idx] + [list[idx]] + list[idx + 1..];
  }

  /** Removing the entry just added gives the list back. */
  lemma SplicedUndoesPush(list: seq<string>, value: string)
    ensures Spliced(list + [value], |list|) == list
  {
  }

  /** `changes.staff_filter_message.newValue || ""` for the string values that key holds. */
  function MessageText(v: Option<StoreValue>): (t: string)
    ensures v.Some? && v.value.StringValue? ==> t == v.value.s
  {
    match v
    case Some(StringValue(s)) => s
    case _ => ""
  }

  /** The flag the popup's cookie shows after the listener saw `changes`. */
  function FlagAfterChange(cookieOn: bool, changes: map<string, Option<StoreValue>>): (on: bool) {
    if StaffFilterKey in changes then Truthy(changes[StaffFilterKey]) else cookieOn
  }

  /**
   * If the cookie agreed with the stored flag before a write, it agrees after
   * the listener has seen the write's change set.
   */
  lemma ListenerKeepsMirror(before: Items, after: Items, cookieOn: bool)
    requires cookieOn == Truthy(Get(before, StaffFilterKey))
    ensures FlagAfterChange(cookieOn, Changes(before, after)) == Truthy(Get(after, StaffFilterKey))
  {
  }

  /**
   * When the content script reverts staff-only mode, the popup sees the flag
   * turn off and, unless the same reason is already stored, shows the reason.
   */
  lemma RevertReachesPopup(items: Items)
    requires Truthy(Get(items, StaffFilterKey))
    ensures var changes := Changes(items, Set(items, RevertUpdate()));
      && !FlagAfterChange(true, changes)
      && (Get(items, StaffMessageKey) != Some(StringValue(RevertReason)) ==>
            StaffMessageKey in changes && MessageText(changes[StaffMessageKey]) == RevertReason)
  {
    RevertChangesFlag(items);
    RevertRecordsReason(items);
  }

  /**
   * A name typed into the popup is hidden by the content script in normal
   * mode, whatever case and surrounding whitespace the chat shows it with.
   */
  lemma AddedNameBlocked(list: seq<string>, typed: string, p: Presentation, user: Option<UserElement>, staff: bool)
    requires Trim(typed) != ""
    requires Username(user) == NormalizeName(Some(typed))
    ensures HiddenByExtension(Checked(p, user, staff, BlockSetOf(list + [Trim(typed)]), false))
  {
    TrimIdempotent(typed);
    NormalModeHidesListed(p, user, staff, list + [Trim(typed)]);
    assert Trim(typed) in list + [Trim(typed)];
    BlockSetMembership(list + [Trim(typed)], NormalizeName(Some(typed)));
  }

  /** The popup page's state: its cookie jar, the block input and the status line. */
  class Popup {
    const local: StorageArea?            // null when `chrome.storage.local` is unavailable
    var jar: seq<CookieEntry>
    var blockCookie: seq<string>         // the list the `block_list` cookie holds, as parsed
    var blockInput: string
    var status: string                   // the `statusNote` text

    ghost predicate Valid()
      reads this
    {
      WellFormed(jar)
    }

    constructor (local: StorageArea?, jar: seq<CookieEntry>, blockCookie: seq<string>)
      requires WellFormed(jar)
      ensures Valid()
      ensures this.local == local && this.jar == jar && this.blockCookie == blockCookie
      ensures blockInput == "" && status == ""
    {
      this.local := local;
      this.jar := jar;
      this.blockCookie := blockCookie;
      blockInput := "";
      status := "";
    }

    /** `isFilterOn()`: the flag cookie reads "1". */
    predicate IsFilterOn()
      reads this
    {
      GetCookieRaw(DocumentCookie(jar), FilterCookie) == Some("1")
    }

    /** `loadBlockList()`: storage when available, otherwise the cookie fallback. */
    function LoadBlockList(): seq<string>
      reads this, local
    {
      if local != null then BlockListIn(local.items) else blockCookie
    }

    /** `getStoredStaffFilter()`: the stored flag if the key is present, otherwise the cookie. */
    predicate GetStoredStaffFilter()
      reads this, local
    {
      if local != null && StaffFilterKey in local.items then Truthy(Get(local.items, StaffFilterKey)) else IsFilterOn()
    }

    /** `setCookie(FILTER_COOKIE, on ? "1" : "0", 365)`; afterwards the cookie reads back `on`. */
    method SetFilterCookie(on: bool)
      requires Valid()
      modifies this`jar
      ensures Valid()
      ensures jar == SetCookieIn(old(jar), FilterCookie, FlagText(on))
      ensures IsFilterOn() == on
    {
      assert Token(FilterCookie) by {
        assert forall k :: 0 <= k < |FilterCookie| ==> FilterCookie[k] != ';' && FilterCookie[k] != '=';
      }
      SetCookieKeepsWellFormed(jar, FilterCookie, FlagText(on));
      jar := SetCookieIn(jar, FilterCookie, FlagText(on));
      GetCookieOfRendered(jar, FilterCookie);
    }

    /** `saveBlockList(list)`: a storage write, or the cookie fallback; afterwards the list loads back. */
    method SaveBlockList(list: seq<string>)
      modifies local, this`blockCookie
      ensures local != null ==>
        local.items == Set(old(local.items), map[BlockListKey := ListValue(list)]) && blockCookie == old(blockCookie)
      ensures local == null ==> blockCookie == list
      ensures LoadBlockList() == list
    {
      if local != null {
        local.items := Set(local.items, map[BlockListKey := ListValue(list)]);
      } else {
        blockCookie := list;
      }
    }

    /** `addBlockItem()`: a non-blank input is trimmed, appended and saved, and the input cleared. */
    method AddBlockItem()
      modifies local, this`blockCookie, this`blockInput
      ensures Trim(old(blockInput)) == "" ==>
        blockInput == old(blockInput) && blockCookie == old(blockCookie) && (local != null ==> local.items == old(local.items))
      ensures Trim(old(blockInput)) != "" ==>
        && LoadBlockList() == old(LoadBlockList()) + [Trim(old(blockInput))]
        && (local != null ==>
              local.items == Set(old(local.items), map[BlockListKey := ListValue(old(LoadBlockList()) + [Trim(old(blockInput))])])
              && blockCookie == old(blockCookie))
        && blockInput == ""
    {
      var value := Trim(blockInput);
      if value == "" {
        return;
      }
      var list := LoadBlockList();
      list := list + [value];
      SaveBlockList(list);
      blockInput := "";
    }

    /** The Remove button of rendered entry idx: the list is reloaded and entry idx spliced out. */
    method RemoveBlockItem(idx: nat)
      modifies local, this`blockCookie
      ensures LoadBlockList() == Spliced(old(LoadBlockList()), idx)
      ensures local != null ==>
        local.items == Set(old(local.items), map[BlockListKey := ListValue(Spliced(old(LoadBlockList()), idx))])
        && blockCookie == old(blockCookie)
    {
      var current := LoadBlockList();
      current := Spliced(current, idx);
      SaveBlockList(current);
    }

    /** `clearBlockList()` */
    method ClearBlockList()
      modifies local, this`blockCookie
      ensures LoadBlockList() == []
      ensures local != null ==>
        local.items == Set(old(local.items), map[BlockListKey := ListValue([])]) && blockCookie == old(blockCookie)
    {
      SaveBlockList([]);
    }

    /**
     * `setFilterOn(on)`: the cookie is set; with storage the flag is mirrored
     * and any earlier reason cleared; the status line is cleared.
     */
    method SetFilterOn(on: bool)
      requires Valid()
      modifies this`jar, this`status, local
      ensures Valid()
      ensures jar == SetCookieIn(old(jar), FilterCookie, FlagText(on))
      ensures IsFilterOn() == on
      ensures GetStoredStaffFilter() == on
      ensures local != null ==>
        local.items == Set(old(local.items), map[StaffFilterKey := BoolValue(on), StaffMessageKey := StringValue("")])
      ensures status == ""
    {
      SetFilterCookie(on);
      if local != null {
        local.items := Set(local.items, map[StaffFilterKey := BoolValue(on), StaffMessageKey := StringValue("")]);
      }
      status := "";
    }

    /** `toggleStaffFilter()` */
    method ToggleStaffFilter()
      requires Valid()
      modifies this`jar, this`status, local
      ensures Valid()
      ensures jar == SetCookieIn(old(jar), FilterCookie, FlagText(!old(IsFilterOn())))
      ensures IsFilterOn() == !old(IsFilterOn())
      ensures GetStoredStaffFilter() == !old(IsFilterOn())
      ensures local != null ==>
        local.items == Set(old(local.items), map[StaffFilterKey := BoolValue(!old(IsFilterOn())), StaffMessageKey := StringValue("")])
      ensures status == ""
    {
      SetFilterOn(!IsFilterOn());
    }

    /** The start-up step that copies the stored flag into the cookie. */
    method InitFilterCookie()
      requires Valid()
      modifies this`jar
      ensures Valid()
      ensures jar == SetCookieIn(old(jar), FilterCookie, FlagText(old(GetStoredStaffFilter())))
      ensures IsFilterOn() == old(GetStoredStaffFilter())
    {
      var stored := GetStoredStaffFilter();
      SetFilterCookie(stored);
    }

    /**
     * The popup's `chrome.storage.onChanged` listener: a change of the flag
     * is copied into the cookie, a change of the reason is shown.
     */
    method OnStorageChanged(changes: map<string, Option<StoreValue>>, area: string)
      requires Valid()
      modifies this`jar, this`status
      ensures Valid()
      ensures area == "local" ==> IsFilterOn() == FlagAfterChange(old(IsFilterOn()), changes)
      ensures area == "local" && StaffFilterKey in changes ==>
        jar == SetCookieIn(old(jar), FilterCookie, FlagText(Truthy(changes[StaffFilterKey])))
      ensures !(area == "local" && StaffFilterKey in changes) ==> jar == old(jar)
      ensures status == if area == "local" && StaffMessageKey in changes then MessageText(changes[StaffMessageKey]) else old(status)
    {
      if area == "local" {
        if StaffFilterKey in changes {
          var newVal := Truthy(changes[StaffFilterKey]);
          SetFilterCookie(newVal);
        }
        if StaffMessageKey in changes {
          var message := MessageText(changes[StaffMessageKey]);
          status := message;
        }
      }
    }
  }
}
