/**
 * The live side of the content script: chat message elements whose
 * presentation is changed in place, and the module-level session state that
 * keeps the filter current: the live mutation observer, the last applied
 * block set and flag, each observer's debounced staff-existence check, the
 * re-application on configuration changes and the bounded bootstrap retry.
 */
module ChatSession {
  import opened Wrappers
  import opened Storage
  import opened BlockFilter

  /**
   * One chat message node of the host page. What the username and staff-badge
   * selectors find inside it is fixed by the host's markup; the extension
   * only changes `style.display` and its marker attribute.
   */
  class MessageElement {
    const user: Option<UserElement>
    const staff: bool
    var display: string
    var marker: Option<string>

    constructor (user: Option<UserElement>, staff: bool, display: string, marker: Option<string>)
      ensures this.user == user && this.staff == staff
      ensures State() == Presentation(display, marker)
    {
      this.user := user;
      this.staff := staff;
      this.display := display;
      this.marker := marker;
    }

    function State(): Presentation
      reads this
    {
      Presentation(display, marker)
    }
  }

  function Elements(ms: seq<MessageElement>): (es: set<MessageElement>) {
    set e | e in ms
  }

  /** `hideMessage` */
  method HideMessage(node: MessageElement?)
    modifies node
    ensures node != null ==> node.State() == Hidden()
  {
    if node == null {
      return;
    }
    node.display := "none";
    node.marker := Some(MarkerValue);
  }

  /** `unhideMessage`: only an element carrying the extension's marker is changed. */
  method UnhideMessage(node: MessageElement?)
    modifies node
    ensures node != null ==> node.State() == Unhidden(old(node.State()))
  {
    if node == null {
      return;
    }
    if node.marker == Some(MarkerValue) {
      node.display := "";
      node.marker := None;
    }
  }

  /** `checkAndApplyToMessage` */
  method CheckAndApplyToMessage(node: MessageElement, blockSet: set<string>, staffOnly: bool)
    modifies node
    ensures node.State() == Checked(old(node.State()), node.user, node.staff, blockSet, staffOnly)
  {
    if node.user.None? {
      return;
    }
    var username := NormalizeName(Some(UserText(node.user.value)));
    if username == "" {
      return;
    }
    var staff := node.staff;
    if staffOnly {
      if staff {
        UnhideMessage(node);
      } else {
        HideMessage(node);
      }
      return;
    }
    if username in blockSet {
      HideMessage(node);
    } else {
      UnhideMessage(node);
    }
  }

  /**
   * `nodes.forEach(n => checkAndApplyToMessage(n, blockSet, staffOnly))`.
   * A node listed twice ends up as if checked once.
   */
  method CheckEach(nodes: seq<MessageElement>, blockSet: set<string>, staffOnly: bool)
    modifies Elements(nodes)
    ensures forall e :: e in nodes ==> e.State() == Checked(old(e.State()), e.user, e.staff, blockSet, staffOnly)
  {
    ghost var done: set<MessageElement> := {};
    for i := 0 to |nodes|
      invariant done == Elements(nodes[..i])
      invariant forall e :: e in nodes ==>
        e.State() == if e in done then Checked(old(e.State()), e.user, e.staff, blockSet, staffOnly) else old(e.State())
    {
      var node := nodes[i];
      CheckAndApplyToMessage(node, blockSet, staffOnly);
      CheckedIdempotent(old(node.State()), node.user, node.staff, blockSet, staffOnly);
      done := done + {node};
      assert nodes[..i + 1] == nodes[..i] + [node];
    }
  }

  /** An added node of a mutation record. */
  datatype AddedNode =
    | OtherNode  // a text or comment node: `!(node instanceof HTMLElement)`
    | ElementNode(self: Option<MessageElement>, nested: seq<MessageElement>)  // self: the node matches the message selector

  datatype MutationRecord = MutationRecord(addedNodes: seq<AddedNode>, removedNodes: nat)

  /** The messages the observer callback checks for one added node. */
  function NodeTargets(n: AddedNode): (targets: set<MessageElement>) {
    match n
    case OtherNode => {}
    case ElementNode(self, nested) => (if self.Some? then {self.value} else {}) + Elements(nested)
  }

  function AddedTargets(nodes: seq<AddedNode>): (targets: set<MessageElement>) {
    if nodes == [] then {} else AddedTargets(nodes[..|nodes| - 1]) + NodeTargets(nodes[|nodes| - 1])
  }

  /** Every message element a mutation batch hands to `checkAndApplyToMessage`. */
  function BatchTargets(batch: seq<MutationRecord>): (targets: set<MessageElement>) {
    if batch == [] then {} else BatchTargets(batch[..|batch| - 1]) + AddedTargets(batch[|batch| - 1].addedNodes)
  }

  lemma {:induction false} AddedTargetsPrefix(nodes: seq<AddedNode>, j: nat)
    requires j <= |nodes|
    ensures AddedTargets(nodes[..j]) <= AddedTargets(nodes)
    decreases |nodes| - j
  {
    if j < |nodes| {
      AddedTargetsPrefix(nodes, j + 1);
      assert nodes[..j + 1][..j] == nodes[..j];
    } else {
      assert nodes[..j] == nodes;
    }
  }

  lemma {:induction false} BatchTargetsPrefix(batch: seq<MutationRecord>, i: nat)
    requires i <= |batch|
    ensures BatchTargets(batch[..i]) <= BatchTargets(batch)
    decreases |batch| - i
  {
    if i < |batch| {
      BatchTargetsPrefix(batch, i + 1);
      assert batch[..i + 1][..i] == batch[..i];
    } else {
      assert batch[..i] == batch;
    }
  }

  lemma AddedTargetsStep(nodes: seq<AddedNode>, j: nat)
    requires j < |nodes|
    ensures AddedTargets(nodes[..j + 1]) == AddedTargets(nodes[..j]) + NodeTargets(nodes[j])
  {
    assert nodes[..j + 1][..j] == nodes[..j];
  }

  lemma BatchTargetsStep(batch: seq<MutationRecord>, i: nat)
    requires i < |batch|
    ensures BatchTargets(batch[..i + 1]) == BatchTargets(batch[..i]) + AddedTargets(batch[i].addedNodes)
  {
    assert batch[..i + 1][..i] == batch[..i];
  }

  lemma NodeInAdded(nodes: seq<AddedNode>, j: nat)
    requires j < |nodes|
    ensures NodeTargets(nodes[j]) <= AddedTargets(nodes)
  {
    assert nodes[..j + 1][..j] == nodes[..j];
    AddedTargetsPrefix(nodes, j + 1);
  }

  lemma RecordInBatch(batch: seq<MutationRecord>, i: nat)
    requires i < |batch|
    ensures AddedTargets(batch[i].addedNodes) <= BatchTargets(batch)
  {
    assert batch[..i + 1][..i] == batch[..i];
    BatchTargetsPrefix(batch, i + 1);
  }

  /** The callback's handling of one added node: the node itself if it is a message, then the messages inside it. */
  method CheckAddedNode(n: AddedNode, blockSet: set<string>, staffOnly: bool)
    modifies NodeTargets(n)
    ensures forall e :: e in NodeTargets(n) && old(allocated(e)) ==>
      e.State() == Checked(old(e.State()), e.user, e.staff, blockSet, staffOnly)
  {
    match n {
      case OtherNode =>
      case ElementNode(self, nested) =>
        if self.Some? {
          CheckAndApplyToMessage(self.value, blockSet, staffOnly);
        }
        CheckEach(nested, blockSet, staffOnly);
        forall e | e in nested
          ensures Checked(Checked(old(e.State()), e.user, e.staff, blockSet, staffOnly), e.user, e.staff, blockSet, staffOnly)
            == Checked(old(e.State()), e.user, e.staff, blockSet, staffOnly)
        {
          CheckedIdempotent(old(e.State()), e.user, e.staff, blockSet, staffOnly);
        }
    }
  }

  /** The callback's handling of the added nodes of one mutation record. */
  method CheckAddedNodes(nodes: seq<AddedNode>, blockSet: set<string>, staffOnly: bool)
    modifies AddedTargets(nodes)
    ensures forall e :: e in AddedTargets(nodes) && old(allocated(e)) ==>
      e.State() == Checked(old(e.State()), e.user, e.staff, blockSet, staffOnly)
  {
    ghost var done: set<MessageElement> := {};
    for j := 0 to |nodes|
      invariant done == AddedTargets(nodes[..j])
      invariant forall e :: e in AddedTargets(nodes) && old(allocated(e)) ==>
        e.State() == if e in done then Checked(old(e.State()), e.user, e.staff, blockSet, staffOnly) else old(e.State())
    {
      NodeInAdded(nodes, j);
      CheckAddedNode(nodes[j], blockSet, staffOnly);
      forall e | e in NodeTargets(nodes[j]) && old(allocated(e))
        ensures Checked(Checked(old(e.State()), e.user, e.staff, blockSet, staffOnly), e.user, e.staff, blockSet, staffOnly)
          == Checked(old(e.State()), e.user, e.staff, blockSet, staffOnly)
      {
        CheckedIdempotent(old(e.State()), e.user, e.staff, blockSet, staffOnly);
      }
      done := done + NodeTargets(nodes[j]);
      AddedTargetsStep(nodes, j);
    }
    assert nodes[..|nodes|] == nodes;
  }

  /** The observer created for one configuration epoch, with the block set and flag it captured. */
  datatype ObserverRecord = ObserverRecord(blockSet: set<string>, staffOnly: bool, connected: bool)

  /** `maxAttempts` of the bootstrap retry. */
  const MaxAttempts: nat := 40

  /** `currentObserver.disconnect()`: the current observer, if any, stops receiving mutations. */
  function Disconnected(observers: seq<ObserverRecord>, current: Option<nat>): (r: seq<ObserverRecord>)
    ensures |r| == |observers|
    ensures forall i :: 0 <= i < |r| ==>
      r[i] == if current == Some(i) then observers[i].(connected := false) else observers[i]
  {
    if current.Some? && current.value < |observers| then
      observers[current.value := observers[current.value].(connected := false)]
    else
      observers
  }

  /** The storage listener re-applies only for local-area changes of the block list or the flag. */
  predicate TriggersReapply(changes: set<string>, area: string) {
    area == "local" && (BlockListKey in changes || StaffFilterKey in changes)
  }

  /** The content script's module-level state, with the page and the storage area it sees. */
  class Session {
    const local: StorageArea?             // null when `chrome.storage.local` is unavailable
    var wrapperPresent: bool               // `.live-chat-wrapper` is in the page
    var messages: seq<MessageElement>      // the message nodes under it, in document order
    var observers: seq<ObserverRecord>     // every observer created so far; the index is its identity
    var currentObserver: Option<nat>
    var pendingChecks: set<nat>            // observers whose `staffExistenceTimer` is set
    var lastBlockSet: set<string>
    var lastStaffFilter: bool
    var scrollAttempts: nat                // calls of `clickScrollButtonIfVisible`
    var attempt: nat
    var retryPending: bool                 // a `setTimeout(trySetup, 500)` is outstanding

    /**
     * At most one observer is connected, and it is the current one; timers
     * belong to observers that exist; the retry budget is respected.
     */
    ghost predicate Valid()
      reads this`currentObserver, this`observers, this`pendingChecks, this`attempt, this`retryPending
    {
      && (currentObserver.Some? ==> currentObserver.value < |observers|)
      && (forall i :: 0 <= i < |observers| && observers[i].connected ==> currentObserver == Some(i))
      && (forall k :: k in pendingChecks ==> k < |observers|)
      && attempt <= MaxAttempts
      && (retryPending ==> attempt < MaxAttempts)
    }

    /** The state when the script starts: no observer, empty block set, flag off, no attempt yet. */
    constructor (local: StorageArea?, wrapperPresent: bool, messages: seq<MessageElement>)
      ensures Valid()
      ensures this.local == local && this.wrapperPresent == wrapperPresent && this.messages == messages
      ensures observers == [] && currentObserver == None && pendingChecks == {}
      ensures lastBlockSet == {} && !lastStaffFilter && scrollAttempts == 0
      ensures attempt == 0 && !retryPending
    {
      this.local := local;
      this.wrapperPresent := wrapperPresent;
      this.messages := messages;
      observers := [];
      currentObserver := None;
      pendingChecks := {};
      lastBlockSet := {};
      lastStaffFilter := false;
      scrollAttempts := 0;
      attempt := 0;
      retryPending := false;
    }

    /** `getBlockList()`: the stored list, or [] without storage. */
    function GetBlockList(): seq<string>
      reads local
    {
      if local != null then BlockListIn(local.items) else []
    }

    /** `getStaffFilter()`: the truthiness of the stored flag, or false without storage. */
    function GetStaffFilter(): bool
      reads local
    {
      local != null && Truthy(Get(local.items, StaffFilterKey))
    }

    /** Some message under the wrapper is from staff. */
    predicate StaffPresent()
      reads this`wrapperPresent, this`messages
    {
      wrapperPresent && exists i :: 0 <= i < |messages| && messages[i].staff
    }

    /** `hasStaffMessages`: a search over the message nodes that stops at the first staff message. */
    method HasStaffMessages() returns (found: bool)
      ensures found == StaffPresent()
    {
      if !wrapperPresent {
        return false;
      }
      for i := 0 to |messages|
        invariant forall k :: 0 <= k < i ==> !messages[k].staff
      {
        if messages[i].staff {
          return true;
        }
      }
      return false;
    }

    /** `scanExistingMessages`: every message under the wrapper is checked; nothing happens without a wrapper. */
    method ScanExistingMessages(blockSet: set<string>, staffOnly: bool)
      modifies Elements(messages)
      ensures forall e :: e in messages ==>
        e.State() == if wrapperPresent then Checked(old(e.State()), e.user, e.staff, blockSet, staffOnly) else old(e.State())
    {
      if !wrapperPresent {
        return;
      }
      CheckEach(messages, blockSet, staffOnly);
    }

    /** `scheduleStaffExistenceCheck` of observer k: the slot's previous timer, if any, is replaced by a new one. */
    method ScheduleStaffExistenceCheck(k: nat)
      requires Valid() && k < |observers|
      modifies this`pendingChecks
      ensures Valid()
      ensures pendingChecks == old(pendingChecks) + {k}
    {
      pendingChecks := pendingChecks + {k};
    }

    /**
     * The debounced check of observer k fires: the slot is cleared first; then,
     * if staff-only mode is on and no staff message is present, the flag is
     * written off together with the reason.
     */
    method FireStaffExistenceCheck(k: nat)
      requires Valid() && k in pendingChecks
      modifies this`pendingChecks, local
      ensures Valid()
      ensures pendingChecks == old(pendingChecks) - {k}
      ensures local != null ==>
        local.items == (if lastStaffFilter && !StaffPresent() then Set(old(local.items), RevertUpdate()) else old(local.items))
    {
      pendingChecks := pendingChecks - {k};
      if lastStaffFilter {
        var found := HasStaffMessages();
        if !found && local != null {
          local.items := Set(local.items, RevertUpdate());
        }
      }
    }

    /**
     * The callback of connected observer k for one batch of mutation records:
     * every added message, and every message inside an added element, is
     * checked with the block set and flag the observer captured; a check of
     * staff existence is scheduled for each record with removed nodes and once
     * more after the batch.
     */
    method OnMutations(k: nat, batch: seq<MutationRecord>)
      requires Valid() && k < |observers| && observers[k].connected
      modifies this`pendingChecks, BatchTargets(batch)
      ensures Valid()
      ensures pendingChecks == old(pendingChecks) + {k}
      ensures forall e :: e in BatchTargets(batch) && old(allocated(e)) ==>
        e.State() == Checked(old(e.State()), e.user, e.staff, observers[k].blockSet, observers[k].staffOnly)
    {
      var blockSet, staffOnly := observers[k].blockSet, observers[k].staffOnly;
      ghost var done: set<MessageElement> := {};
      for i := 0 to |batch|
        invariant done == BatchTargets(batch[..i])
        invariant Valid()
        invariant pendingChecks == old(pendingChecks) || pendingChecks == old(pendingChecks) + {k}
        invariant forall e :: e in BatchTargets(batch) && old(allocated(e)) ==>
          e.State() == if e in done then Checked(old(e.State()), e.user, e.staff, blockSet, staffOnly) else old(e.State())
      {
        var nodes := batch[i].addedNodes;
        RecordInBatch(batch, i);
        CheckAddedNodes(nodes, blockSet, staffOnly);
        forall e | e in AddedTargets(nodes) && old(allocated(e))
          ensures Checked(Checked(old(e.State()), e.user, e.staff, blockSet, staffOnly), e.user, e.staff, blockSet, staffOnly)
            == Checked(old(e.State()), e.user, e.staff, blockSet, staffOnly)
        {
          CheckedIdempotent(old(e.State()), e.user, e.staff, blockSet, staffOnly);
        }
        done := done + AddedTargets(nodes);
        BatchTargetsStep(batch, i);
        if batch[i].removedNodes > 0 {
          ScheduleStaffExistenceCheck(k);
        }
      }
      assert batch[..|batch|] == batch;
      ScheduleStaffExistenceCheck(k);
    }

    /**
     * `observeNewMessages`: without a wrapper nothing is observed; otherwise a
     * new connected observer capturing the block set and flag is created,
     * and its timer slot starts empty.
     */
    method ObserveNewMessages(blockSet: set<string>, staffOnly: bool) returns (handle: Option<nat>)
      requires forall k :: k in pendingChecks ==> k < |observers|
      modifies this`observers
      ensures handle.Some? ==> handle.value !in pendingChecks
      ensures wrapperPresent ==>
        observers == old(observers) + [ObserverRecord(blockSet, staffOnly, true)] && handle == Some(|old(observers)|)
      ensures !wrapperPresent ==> observers == old(observers) && handle == None
    {
      if !wrapperPresent {
        return None;
      }
      observers := observers + [ObserverRecord(blockSet, staffOnly, true)];
      handle := Some(|observers| - 1);
    }

    /** The "reset observer" step: the current observer is disconnected and a new one, if any, becomes current. */
    method ResetObserver(blockSet: set<string>, staffOnly: bool)
      requires Valid()
      modifies this`observers, this`currentObserver
      ensures Valid()
      ensures observers == Disconnected(old(observers), old(currentObserver))
        + (if wrapperPresent then [ObserverRecord(blockSet, staffOnly, true)] else [])
      ensures currentObserver == (if wrapperPresent then Some(|old(observers)|) else None)
    {
      if currentObserver.Some? {
        var c := currentObserver.value;
        observers := observers[c := observers[c].(connected := false)];
        currentObserver := None;
      }
      currentObserver := ObserveNewMessages(blockSet, staffOnly);
    }

    /** The configuration read at the start of an epoch turns staff-only mode back off at once. */
    predicate RevertsAtOnce(staffFlag: bool)
      reads this`wrapperPresent, this`messages
    {
      staffFlag && !StaffPresent() && local != null
    }

    /**
     * What one run of `applyBlockListAndFilter` does, the configuration being
     * read from the store as it was before the run: the normalized block set
     * and the flag become the current ones; every message under the wrapper is
     * checked with them; if staff-only mode is on with no staff message, the
     * revert is written and the current observer is kept; otherwise the view
     * is scrolled once if the flag changed, the current observer is
     * disconnected and a new one attached.
     */
    twostate predicate Applied()
      reads this, local, Elements(messages)
    {
      && Configured()
      && Rescanned()
      && EpochEnded()
    }

    /** The block set and flag read from the store become the current ones; the page is as it was. */
    twostate predicate Configured()
      reads this
    {
      && lastBlockSet == BlockSetOf(old(GetBlockList()))
      && lastStaffFilter == old(GetStaffFilter())
      && wrapperPresent == old(wrapperPresent)
      && messages == old(messages)
    }

    /** Every message under the wrapper has been checked with the current block set and flag. */
    twostate predicate Rescanned()
      reads this, Elements(messages)
    {
      forall e :: e in messages && old(allocated(e)) ==>
        e.State() == if wrapperPresent then Checked(old(e.State()), e.user, e.staff, lastBlockSet, lastStaffFilter) else old(e.State())
    }

    /** Either the revert is written and the observer kept, or the view is scrolled on a toggle and the observer replaced. */
    twostate predicate EpochEnded()
      reads this, local
    {
      && (local != null ==>
            local.items == (if RevertsAtOnce(lastStaffFilter) then Set(old(local.items), RevertUpdate()) else old(local.items)))
      && (if RevertsAtOnce(lastStaffFilter) then
            && observers == old(observers)
            && currentObserver == old(currentObserver)
            && scrollAttempts == old(scrollAttempts)
          else
            && observers == Disconnected(old(observers), old(currentObserver))
                 + (if wrapperPresent then [ObserverRecord(lastBlockSet, lastStaffFilter, true)] else [])
            && currentObserver == (if wrapperPresent then Some(|old(observers)|) else None)
            && scrollAttempts == old(scrollAttempts) + (if lastStaffFilter != old(lastStaffFilter) then 1 else 0))
    }

    /**
     * The first half of `applyBlockListAndFilter`: the block list and flag are
     * read, the normalized set and the flag become the current ones, and the
     * messages are scanned; the result says whether the flag changed.
     */
    method Configure() returns (staffToggled: bool)
      modifies this`lastBlockSet, this`lastStaffFilter, Elements(messages)
      ensures Configured() && Rescanned()
      ensures staffToggled == (lastStaffFilter != old(lastStaffFilter))
    {
      var list := GetBlockList();
      var staffFlag := GetStaffFilter();
      var normalizedSet := BlockSetOf(list);
      lastBlockSet := normalizedSet;
      staffToggled := staffFlag != lastStaffFilter;
      lastStaffFilter := staffFlag;
      ScanExistingMessages(normalizedSet, lastStaffFilter);
    }

    /**
     * The second half: the early revert when staff-only mode finds no staff
     * message, otherwise the scroll on a toggle and the observer reset.
     */
    method EndEpoch(staffToggled: bool)
      requires Valid()
      modifies local, this`scrollAttempts, this`observers, this`currentObserver
      ensures Valid()
      ensures local != null ==>
        local.items == (if RevertsAtOnce(lastStaffFilter) then Set(old(local.items), RevertUpdate()) else old(local.items))
      ensures if RevertsAtOnce(lastStaffFilter) then
          && observers == old(observers)
          && currentObserver == old(currentObserver)
          && scrollAttempts == old(scrollAttempts)
        else
          && observers == Disconnected(old(observers), old(currentObserver))
               + (if wrapperPresent then [ObserverRecord(lastBlockSet, lastStaffFilter, true)] else [])
          && currentObserver == (if wrapperPresent then Some(|old(observers)|) else None)
          && scrollAttempts == old(scrollAttempts) + (if staffToggled then 1 else 0)
    {
      if lastStaffFilter {
        var found := HasStaffMessages();
        if !found && local != null {
          assert RevertsAtOnce(lastStaffFilter);
          local.items := Set(local.items, RevertUpdate());
          return;
        }
      }
      assert !RevertsAtOnce(lastStaffFilter);
      if staffToggled {
        scrollAttempts := scrollAttempts + 1;
      }
      ResetObserver(lastBlockSet, lastStaffFilter);
    }

    /** `applyBlockListAndFilter`, with the two storage reads resolved against the store as it is. */
    method ApplyBlockListAndFilter()
      requires Valid()
      modifies this, Elements(messages), local
      ensures Valid()
      ensures Configured() && Rescanned() && EpochEnded()
      ensures attempt == old(attempt) && retryPending == old(retryPending)
      ensures pendingChecks == old(pendingChecks)
    {
      var staffToggled := Configure();
      EndEpoch(staffToggled);
    }

    /** The `chrome.storage.onChanged` listener, given the changed keys and the area name. */
    method OnStorageChanged(changes: set<string>, area: string)
      requires Valid()
      modifies this, Elements(messages), local
      ensures Valid()
      ensures TriggersReapply(changes, area) ==>
        && Applied()
        && attempt == old(attempt) && retryPending == old(retryPending)
        && pendingChecks == old(pendingChecks)
      ensures !TriggersReapply(changes, area) ==>
        unchanged(this) && unchanged(Elements(messages)) && (local != null ==> unchanged(local))
    {
      if area == "local" && (BlockListKey in changes || StaffFilterKey in changes) {
        ApplyBlockListAndFilter();
      }
    }

    /**
     * `trySetup`, run once at start and again whenever its retry timer fires:
     * the attempt is counted; with the wrapper present the filter is applied,
     * otherwise another try is scheduled only while fewer than 40 attempts
     * have been made.
     */
    method TrySetup()
      requires Valid() && (attempt == 0 || retryPending)
      modifies this, Elements(messages), local
      ensures Valid()
      ensures attempt == old(attempt) + 1
      ensures pendingChecks == old(pendingChecks)
      ensures old(wrapperPresent) ==> !retryPending && Applied()
      ensures !old(wrapperPresent) ==>
        && retryPending == (attempt < MaxAttempts)
        && wrapperPresent == old(wrapperPresent) && messages == old(messages)
        && observers == old(observers) && currentObserver == old(currentObserver)
        && lastBlockSet == old(lastBlockSet) && lastStaffFilter == old(lastStaffFilter)
        && scrollAttempts == old(scrollAttempts)
        && unchanged(Elements(messages)) && (local != null ==> unchanged(local))
    {
      retryPending := false;
      attempt := attempt + 1;
      if wrapperPresent {
        ApplyBlockListAndFilter();
      } else if attempt < MaxAttempts {
        retryPending := true;
      }
    }
  }
}
