# Floatplane chat moderator: a verified model

This project models the two scripts of a browser extension that filters the live chat of floatplane.com.

- **Content script** (`content-scripts/hide-blocked.js`). It runs in the chat page. It hides messages whose username is on a block list. In "staff messages only" mode it instead hides every message that is not from a moderator. Its own marker attribute records which messages it hid, so it only ever shows again what it hid itself. A mutation observer keeps newly added messages filtered. After every batch of mutations, and after each record with removed nodes, a debounced check turns staff-only mode back off when no staff message is left. The script re-applies the filter whenever the stored configuration changes, and while the chat wrapper is missing it tries its bootstrap at most 40 times in all (the first try and up to 39 retries).
- **Popup** (`controls.js`). It edits the block list in `chrome.storage.local`, falling back to a cookie. It keeps the staff-only flag in a cookie and mirrors it into storage. Through its own storage listener, it keeps the cookie in step with reverts made by the content script.

Modules:

- `Wrappers`: `Option`.
- `Text`: the string primitives the scripts use.
  - `trim` uses the ECMAScript whitespace set.
  - `toLowerCase` and `startsWith` are covered.
  - `split` takes a non-empty string separator.
- `Storage`: the storage area shared by both scripts.
  - It covers the three keys and JavaScript truthiness of the values read back.
  - It also covers the change sets that `onChanged` delivers after a write.
  - `StorageArea` is a class, because both scripts write the same object.
- `BlockFilter`: the pure decision.
  - `NormalizeName` normalizes a name, and `Decide` picks the branch `checkAndApplyToMessage` takes.
  - `Checked` gives the presentation `(display, marker)` of a message after a check.
- `ChatSession`: the imperative side of the content script.
  - `MessageElement` objects have their `display` and marker changed in place.
  - The `Session` class holds the script's module-level state:
    - the observers created so far and the current one;
    - each observer's pending `staffExistenceTimer`;
    - `lastBlockSet` and `lastStaffFilter`;
    - the bootstrap counter and the outstanding retry.
  - Two-state predicates (`Configured`, `Rescanned`, `EpochEnded`, combined as `Applied`) state what one run of `applyBlockListAndFilter` does to the page, the observers and the store.
- `Cookies`: covers the cookie jar the popup keeps and the `document.cookie` string it renders to.
  - `getCookie` is modelled as a parser over that string and proved equal to a lookup in the jar.
  - `setCookie` is modelled by its effect on the jar.
- `PopupControls`: the `Popup` class.
  - Its state is the jar, the cookie-held fallback block list, the input field and the status line.
  - Its methods are the popup's actions and its storage listener.
  - The module also holds the lemmas linking the popup to the content script:
    - a name typed into the popup ends up hidden in the chat;
    - a revert by the content script turns the popup's flag off and shows the reason.

The three read accessors of the source are functions without contracts of their own. They appear in the contracts of the methods that use them, and those methods are listed below.

- `Popup.IsFilterOn` models `isFilterOn`.
- `Popup.LoadBlockList` models `loadBlockList`.
- `Popup.GetStoredStaffFilter` models `getStoredStaffFilter`.

The same goes for `Session.GetBlockList` and `Session.GetStaffFilter`. So too for `BlockFilter.NormalizeName`, `Text.Trim` and `Text.ToLower`, whose properties are stated as lemmas.

## Model

| member | source | states |
|---|---|---|
| Text.TrimTrimmed | content-scripts/hide-blocked.js:30-32 | what `trim` returns has no whitespace at either end |
| Text.TrimOfPadded | content-scripts/hide-blocked.js:30-32 | `trim` of whitespace + a core with no outer whitespace + whitespace is exactly that core |
| Text.TrimSplitsPadding | content-scripts/hide-blocked.js:30-32 | every string is its trimmed form with whitespace padding on both sides, so `trim` removes only whitespace |
| Text.TrimKeepsTrimmed | controls.js:85 | a string without outer whitespace is left as it is by `trim` |
| Text.TrimIdempotent | controls.js:85 | trimming twice is trimming once |
| Text.TrimIgnoresPadding | content-scripts/hide-blocked.js:30-32 | extra whitespace around a string does not change its trimmed form |
| Text.ToLowerAt | content-scripts/hide-blocked.js:30-32 | `toLowerCase` maps each character independently, so character k of the result is character k lower-cased |
| Text.ToLowerNoUpper | content-scripts/hide-blocked.js:30-32 | a lower-cased string holds no upper-case letter |
| Text.ToLowerIdempotent | content-scripts/hide-blocked.js:30-32 | lower-casing twice is lower-casing once |
| Text.ToLowerKeepsShape | content-scripts/hide-blocked.js:30-32 | lower-casing keeps whitespace-only strings whitespace-only and trimmed strings trimmed |
| Text.TrimToLowerCommute | content-scripts/hide-blocked.js:30-32 | trimming and lower-casing can be done in either order |
| Text.SplitWhole | controls.js:10-11 | a string without the separator splits into itself alone |
| Text.SplitAtFirst | controls.js:10-11 | the first piece of a split ends at the first separator and the rest splits on its own |
| Text.SplitAtLeastTwo | controls.js:11 | a string holding the separator splits into at least two pieces, so `split("=")[1]` exists |
| Storage.Truthy | content-scripts/hide-blocked.js:22 | `Boolean(v)` is false exactly for `undefined`, `false` and the empty string, and true for every other stored value |
| Storage.BlockListIn | content-scripts/hide-blocked.js:5-14 | `res.block_list \|\| []`: the stored list when the key holds a list, `[]` when the key is absent |
| Storage.Set | content-scripts/hide-blocked.js:221 | a storage write overwrites exactly the keys it names and keeps every other key |
| Storage.Changes | content-scripts/hide-blocked.js:245-251 | the change set holds a key iff its value differs before and after the write, with the new value (none when removed) |
| Storage.RevertRecordsReason | content-scripts/hide-blocked.js:217-223 | after the revert write the flag reads false and the non-empty reason is stored |
| Storage.RevertChangesFlag | content-scripts/hide-blocked.js:217-223 | when the stored flag was on, the revert write reports a change of `staff_filter_on` |
| BlockFilter.NormalizeNameShape | content-scripts/hide-blocked.js:30-32 | a normalized name has no outer whitespace and no upper-case letter; null/undefined give "" |
| BlockFilter.NormalizeNameIdempotent | content-scripts/hide-blocked.js:30-32 | normalizing a normalized name changes nothing |
| BlockFilter.NormalizeNameIgnoresPadding | content-scripts/hide-blocked.js:30-32 | whitespace around a name does not change its normalized form |
| BlockFilter.NormalizeNameIgnoresCase | content-scripts/hide-blocked.js:30-32 | two names equal up to letter case normalize to the same string |
| BlockFilter.BlockSetOf | content-scripts/hide-blocked.js:206 | `new Set(list.map(normalizeName))`: every entry's normalized form is in the set, and every member of the set is the normalized form of some entry |
| BlockFilter.BlockSetMembership | content-scripts/hide-blocked.js:206 | a name is in the block set iff some stored entry normalizes to it |
| BlockFilter.UserText | content-scripts/hide-blocked.js:70 | `textContent \|\| innerText \|\| ""`: a non-empty `textContent` is taken, otherwise `innerText`; the result is empty iff both are |
| BlockFilter.Decide | content-scripts/hide-blocked.js:67-88 | a message is left untouched iff its username is missing or normalizes to ""; otherwise it is hidden iff the rule says hide (staff-only: not staff; normal: listed) |
| BlockFilter.NoUsernameUntouched | content-scripts/hide-blocked.js:68-71 | a message without a username element, or with a blank username, keeps its presentation exactly |
| BlockFilter.HiddenIffShouldHide | content-scripts/hide-blocked.js:67-88 | after a check the marker is set iff the rule says hide; a marked message is display none; otherwise the message is exactly as un-hiding leaves it |
| BlockFilter.StaffOnlyShowsExactlyStaff | content-scripts/hide-blocked.js:75-83 | in staff-only mode a message with a username ends up marked hidden iff it is not from staff, and the block list has no influence |
| BlockFilter.NormalModeHidesListed | content-scripts/hide-blocked.js:85-87 | in normal mode a message ends up marked hidden iff some entry of the stored list normalizes to its username |
| BlockFilter.CheckedIdempotent | content-scripts/hide-blocked.js:67-88 | checking a message twice with the same block set and flag is the same as checking it once |
| BlockFilter.ForeignHideKept | content-scripts/hide-blocked.js:58-64 | a message the extension did not mark is never changed by a check except to be hidden by the extension |
| BlockFilter.UnhideUndoesHide | content-scripts/hide-blocked.js:51-64 | un-hiding a hidden message clears both the display override and the marker |
| ChatSession.HideMessage | content-scripts/hide-blocked.js:51-55 | a non-null message becomes display none with the marker set, whatever it was before |
| ChatSession.UnhideMessage | content-scripts/hide-blocked.js:58-64 | a non-null message loses display override and marker only if it carried the marker; otherwise it is unchanged |
| ChatSession.CheckAndApplyToMessage | content-scripts/hide-blocked.js:67-88 | the message's new presentation is `Checked` of its old one, with its own username and staff badge |
| ChatSession.CheckEach | content-scripts/hide-blocked.js:96 | every listed message ends up checked exactly once in effect, even when listed more than once |
| ChatSession.CheckAddedNode | content-scripts/hide-blocked.js:177-184 | an added node that is a message is checked, and so is every message nested inside an added element; non-elements change nothing |
| ChatSession.CheckAddedNodes | content-scripts/hide-blocked.js:175-186 | every message target of a record's added nodes ends up checked |
| ChatSession.Disconnected | content-scripts/hide-blocked.js:237-240 | disconnecting changes only the current observer's connected bit, and the list keeps its length |
| ChatSession.Session.constructor | content-scripts/hide-blocked.js:200-202 | the script starts with no observer, an empty block set, the flag off, no pending timer and no attempt |
| ChatSession.Session.HasStaffMessages | content-scripts/hide-blocked.js:100-108 | true iff the wrapper is present and some message under it carries a staff badge |
| ChatSession.Session.ScanExistingMessages | content-scripts/hide-blocked.js:91-97 | with the wrapper present every message is checked with the given set and flag; without it nothing changes |
| ChatSession.Session.ScheduleStaffExistenceCheck | content-scripts/hide-blocked.js:152-154 | the observer's timer slot is set, and any earlier timer in that slot is replaced |
| ChatSession.Session.FireStaffExistenceCheck | content-scripts/hide-blocked.js:154-169 | the slot is cleared; the store receives the revert write iff staff-only mode is on and no staff message is present, and is otherwise unchanged |
| ChatSession.Session.OnMutations | content-scripts/hide-blocked.js:172-194 | every added message and nested message is checked with the set and flag the observer captured (not the current ones), and the observer's staff check is scheduled |
| ChatSession.Session.ObserveNewMessages | content-scripts/hide-blocked.js:147-197 | without a wrapper no observer is made; otherwise a new connected observer capturing the set and flag is added, with an empty timer slot |
| ChatSession.Session.ResetObserver | content-scripts/hide-blocked.js:236-241 | the previous observer is disconnected and the new one, if any, becomes the only connected observer |
| ChatSession.Session.Configure | content-scripts/hide-blocked.js:205-214 | the normalized stored list and the stored flag become current, every message is rescanned with them, and the result says whether the flag changed |
| ChatSession.Session.EndEpoch | content-scripts/hide-blocked.js:216-241 | staff-only mode with no staff message and storage available: the revert is written and the observer kept; otherwise one scroll on a toggle and the observer replaced |
| ChatSession.Session.ApplyBlockListAndFilter | content-scripts/hide-blocked.js:204-242 | one run configures, rescans and ends the epoch as stated by `Configured`, `Rescanned` and `EpochEnded`; it keeps the session invariant, the bootstrap counter and every pending staff check, including those of observers it disconnects |
| ChatSession.Session.OnStorageChanged | content-scripts/hide-blocked.js:245-251 | a local-area change of the block list or the flag re-applies the filter, keeping the bootstrap counter and the pending staff checks; any other change leaves page, session and store untouched |
| ChatSession.Session.TrySetup | content-scripts/hide-blocked.js:254-265 | each try counts one attempt and keeps the pending staff checks; with the wrapper it applies and schedules no retry; without it a retry is pending iff fewer than 40 attempts were made, and page, observers, configuration and store are unchanged |
| Cookies.Lookup | controls.js:9-12 | the reference for `getCookie`: no value iff no cookie has that name, otherwise the value of a cookie of that name |
| Cookies.FindRow | controls.js:10 | `find`: the first row starting with the prefix, or none iff no row does |
| Cookies.GetCookieRaw | controls.js:9-12 | no value iff no row of `document.cookie` starts with `name=`; a value found never holds `=` |
| Cookies.SplitRendered | controls.js:10 | splitting a rendered `document.cookie` on "; " gives back its rows |
| Cookies.RowStartsWith | controls.js:10 | a row starts with `name=` iff the cookie is called `name` |
| Cookies.FieldOfRow | controls.js:11 | a row splits on `=` into exactly its name and value |
| Cookies.GetCookieOfRendered | controls.js:9-12 | `getCookie` over the rendered jar returns exactly the value the jar holds for that name |
| Cookies.SetCookieIn | controls.js:4-7 | after `setCookie` the name reads back the value written and every other name reads as before |
| Cookies.SetCookieKeepsWellFormed | controls.js:4-7 | writing an encoded value under a valid name keeps the jar parseable |
| PopupControls.FlagText | controls.js:109 | the cookie text is "1" iff the flag is on and "0" iff it is off |
| PopupControls.Spliced | controls.js:73 | `splice(idx, 1)`: entries before idx are kept, entries after it shift down by one, and an index past the end changes nothing |
| PopupControls.SplicedRemovesOne | controls.js:71-76 | removing entry idx takes exactly that one occurrence out of the list (multiset) |
| PopupControls.SplicedUndoesPush | controls.js:88 | removing the entry just pushed restores the list |
| PopupControls.MessageText | controls.js:212-213 | a stored string reason is shown as it is |
| PopupControls.ListenerKeepsMirror | controls.js:203-211 | if the cookie agreed with the stored flag before a write, it agrees after the listener processed that write's change set |
| PopupControls.RevertReachesPopup | controls.js:203-219 | a revert by the content script turns the popup's flag off and, unless already stored, shows the reason |
| PopupControls.AddedNameBlocked | controls.js:83-92 | a name typed into the popup, once added, hides in normal mode every message whose username equals it up to case and outer whitespace |
| PopupControls.Popup.SetFilterCookie | controls.js:109 | after the cookie write `isFilterOn` reads back the flag written |
| PopupControls.Popup.SaveBlockList | controls.js:40-52 | the list is written to storage, or to the cookie without storage, and `loadBlockList` returns it |
| PopupControls.Popup.AddBlockItem | controls.js:83-92 | a blank input changes nothing; otherwise the trimmed input is appended to the loaded list and saved (with storage: only `block_list` is written, every other key and the cookie list are kept), and the input is cleared |
| PopupControls.Popup.RemoveBlockItem | controls.js:71-76 | the reloaded list with entry idx spliced out is saved; with storage only `block_list` is written and the cookie list is kept |
| PopupControls.Popup.ClearBlockList | controls.js:95-98 | the block list loads back empty; with storage `block_list` is written as `[]` (not removed), the other keys and the cookie list are kept |
| PopupControls.Popup.SetFilterOn | controls.js:107-129 | only the flag cookie changes and it reads back the flag; with storage the flag is mirrored and the reason cleared; `getStoredStaffFilter` then reads the flag with or without storage; the status line is cleared |
| PopupControls.Popup.ToggleStaffFilter | controls.js:155-157 | the cookie flag flips and only that cookie changes; storage receives the flipped flag with an empty reason; `getStoredStaffFilter` reads the flipped flag; the status line is cleared |
| PopupControls.Popup.InitFilterCookie | controls.js:241-247 | only the `staff_filter_on` cookie is rewritten, and afterwards it reads the stored flag when storage holds one, else its own earlier value |
| PopupControls.Popup.OnStorageChanged | controls.js:203-222 | a change of the flag is copied into the cookie; a change of the reason sets the status line; changes in other areas are ignored |

## Left out

- DOM selectors are not modelled. What `findUsernameElement` and `isStaffMessage` find inside a message is fixed by the host page's markup. Each message element therefore carries it as given fields: `user` and `staff`. Which nodes match the message selector is given in the mutation records.
- Asynchrony is not modelled. The `await`ed storage reads of `applyBlockListAndFilter` are resolved against the store as it is when the run starts. Runs interleaving with each other, or with writes landing between the read and the scan, are not modelled.
- Timers are modelled only as state. The 200 ms debounce and the 500 ms retry delay become a pending-timer set and a retry flag, and firing a timer is an explicit method call. The popup's status-message timeout is not modelled.
- Scrolling is only counted. `clickScrollButtonIfVisible` and `isVisible` become a counter of scroll attempts, because they only affect the page's scroll position.
- The UI is not modelled. This covers `renderBlockList`, `updateFilterButtonUI`, `reloadFloatplaneTab`, the DOMContentLoaded wiring and the `confirm` dialog. Removal is modelled with the index of the rendered entry passed in, so the race of a stale index after another change is not captured.
- The `try`/`catch` blocks around storage writes are left out. The model treats a write as always succeeding, so the failure paths of the source are not modelled.
- Cookie details are left out: expiry dates, `path=/`, and the browser's cookie policy. The jar holds name/value pairs only.
- Cookies.GetCookieRaw: `decodeURIComponent` is not applied. The jar holds values already encoded. The only values the popup writes into the jar are "1" and "0", which encode and decode to themselves. The `block_list` cookie, which holds `JSON.stringify(list)` percent-encoded, is kept outside the jar as the parsed list `blockCookie`.
- PopupControls.Popup.LoadBlockList: in the cookie fallback the JSON text is held as the parsed list, so a cookie that fails to parse is not modelled.
- Text.ToLowerChar: only ASCII letters are lower-cased. Unicode case mapping is not modelled.
- Storage.BlockListIn: a truthy stored value that is not a list reads as `[]`. In the source such a value is passed on, and it then throws a TypeError at `.map` (content-scripts/hide-blocked.js:206) or at `list.push` (controls.js:88).
- PopupControls.MessageText: a stored reason that is not a string reads as "", whereas the source would show a truthy non-string value.
