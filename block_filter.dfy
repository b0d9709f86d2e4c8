/**
 * The filter decision of the content script: how a chat message's username
 * is normalised, and whether the message is hidden, shown again or left
 * alone for a given block set and staff-only flag. Hiding always carries the
 * extension's marker (`data-blocked-by-extension="1"`), and only a hide that
 * carries it is ever undone.
 */
module BlockFilter {
  import opened Wrappers
  import opened Text

  /** `normalizeName`: null or undefined become "", anything else is trimmed and lower-cased. */
  function NormalizeName(name: Option<string>): (r: string) {
    ToLower(Trim(name.GetOr("")))
  }

  /** A normalised name has no whitespace at either end and no upper-case letter; a missing name gives "". */
  lemma NormalizeNameShape(name: Option<string>)
    ensures Trimmed(NormalizeName(name))
    ensures forall k :: 0 <= k < |NormalizeName(name)| ==> !IsUpper(NormalizeName(name)[k])
    ensures name.None? ==> NormalizeName(name) == ""
  {
    var t := Trim(name.GetOr(""));
    TrimTrimmed(name.GetOr(""));
    ToLowerKeepsShape(t);
    ToLowerNoUpper(t);
  }

  /** Normalising a normalised name changes nothing. */
  lemma NormalizeNameIdempotent(name: Option<string>)
    ensures NormalizeName(Some(NormalizeName(name))) == NormalizeName(name)
  {
    var t := Trim(name.GetOr(""));
    TrimToLowerCommute(t);
    TrimIdempotent(name.GetOr(""));
    ToLowerIdempotent(t);
  }

  /** Whitespace around a name does not change its normalised form. */
  lemma NormalizeNameIgnoresPadding(pad1: string, s: string, pad2: string)
    requires AllWhitespace(pad1) && AllWhitespace(pad2)
    ensures NormalizeName(Some(pad1 + s + pad2)) == NormalizeName(Some(s))
  {
    TrimIgnoresPadding(pad1, s, pad2);
  }

  /** Two names that differ only in letter case normalise to the same string. */
  lemma NormalizeNameIgnoresCase(s: string, t: string)
    requires ToLower(s) == ToLower(t)
    ensures NormalizeName(Some(s)) == NormalizeName(Some(t))
  {
    TrimToLowerCommute(s);
    TrimToLowerCommute(t);
  }

  /** The block set built from the stored list: `new Set(list.map(normalizeName))`. */
  function BlockSetOf(list: seq<string>): (blockSet: set<string>)
    ensures forall i :: 0 <= i < |list| ==> NormalizeName(Some(list[i])) in blockSet
    ensures forall n :: n in blockSet ==> exists x :: x in list && NormalizeName(Some(x)) == n
  {
    set x | x in list :: NormalizeName(Some(x))
  }

  /** A name is blocked exactly when some list entry normalises to it. */
  lemma BlockSetMembership(list: seq<string>, name: string)
    ensures name in BlockSetOf(list) <==> exists i :: 0 <= i < |list| && NormalizeName(Some(list[i])) == name
  {
    if name in BlockSetOf(list) {
      var x :| x in list && NormalizeName(Some(x)) == name;
      var i :| 0 <= i < |list| && list[i] == x;
      assert NormalizeName(Some(list[i])) == name;
    }
    if i :| 0 <= i < |list| && NormalizeName(Some(list[i])) == name {
      assert list[i] in list;
    }
  }

  /** The username element found inside a message, with the two texts the source reads from it. */
  datatype UserElement = UserElement(textContent: string, innerText: string)

  /** `userEl.textContent || userEl.innerText || ""`: the first non-empty of the two texts, or "". */
  function UserText(u: UserElement): (t: string)
    ensures u.textContent != "" ==> t == u.textContent
    ensures u.textContent == "" ==> t == u.innerText
    ensures t == "" <==> u.textContent == "" && u.innerText == ""
  {
    if u.textContent != "" then u.textContent else u.innerText
  }

  /** The normalised username of a message; "" when there is no username element. */
  function Username(user: Option<UserElement>): (name: string) {
    match user
    case None => ""
    case Some(u) => NormalizeName(Some(UserText(u)))
  }

  /** What the extension can see and change of a message element: `style.display` and the marker attribute. */
  datatype Presentation = Presentation(display: string, marker: Option<string>)

  const MarkerValue: string := "1"

  predicate HiddenByExtension(p: Presentation) {
    p.marker == Some(MarkerValue)
  }

  /** `hideMessage`: display none, marker set, whatever the element looked like before. */
  function Hidden(): (p: Presentation) {
    Presentation("none", Some(MarkerValue))
  }

  /** `unhideMessage`: clears display and marker, but only on an element carrying the marker. */
  function Unhidden(p: Presentation): (r: Presentation) {
    if HiddenByExtension(p) then Presentation("", None) else p
  }

  /** The rule the extension applies: in staff-only mode hide every non-staff message, otherwise the blocked ones. */
  predicate ShouldHide(name: string, staff: bool, blockSet: set<string>, staffOnly: bool) {
    if staffOnly then !staff else name in blockSet
  }

  datatype Action = Untouched | Hide | Show

  /** The branch `checkAndApplyToMessage` takes. */
  function Decide(user: Option<UserElement>, staff: bool, blockSet: set<string>, staffOnly: bool): (a: Action)
    ensures a == Untouched <==> Username(user) == ""
    ensures a != Untouched ==> (a == Hide <==> ShouldHide(Username(user), staff, blockSet, staffOnly))
  {
    if user.None? then Untouched
    else
      var username := NormalizeName(Some(UserText(user.value)));
      if username == "" then Untouched
      else if staffOnly then (if staff then Show else Hide)
      else if username in blockSet then Hide
      else Show
  }

  function ApplyAction(p: Presentation, a: Action): (r: Presentation) {
    match a
    case Untouched => p
    case Hide => Hidden()
    case Show => Unhidden(p)
  }

  /** The presentation of a message after `checkAndApplyToMessage`. */
  function Checked(p: Presentation, user: Option<UserElement>, staff: bool, blockSet: set<string>, staffOnly: bool): (r: Presentation) {
    ApplyAction(p, Decide(user, staff, blockSet, staffOnly))
  }

  /** A message without a username element, or whose username normalises to "", is left exactly as it was. */
  lemma NoUsernameUntouched(p: Presentation, user: Option<UserElement>, staff: bool, blockSet: set<string>, staffOnly: bool)
    requires user.None? || NormalizeName(Some(UserText(user.value))) == ""
    ensures Checked(p, user, staff, blockSet, staffOnly) == p
  {
  }

  /**
   * For a message with a username the extension's marker ends up set exactly
   * when the rule says to hide it; a marked message is always display none.
   */
  lemma HiddenIffShouldHide(p: Presentation, user: Option<UserElement>, staff: bool, blockSet: set<string>, staffOnly: bool)
    requires Username(user) != ""
    ensures var r := Checked(p, user, staff, blockSet, staffOnly);
      && (HiddenByExtension(r) <==> ShouldHide(Username(user), staff, blockSet, staffOnly))
      && (HiddenByExtension(r) ==> r.display == "none")
      && (!HiddenByExtension(r) ==> r == Unhidden(p))
  {
  }

  /** In staff-only mode a message ends up hidden by the extension iff it is not from staff, whatever the block set. */
  lemma StaffOnlyShowsExactlyStaff(p: Presentation, user: Option<UserElement>, staff: bool, blockSet1: set<string>, blockSet2: set<string>)
    requires Username(user) != ""
    ensures HiddenByExtension(Checked(p, user, staff, blockSet1, true)) <==> !staff
    ensures Checked(p, user, staff, blockSet1, true) == Checked(p, user, staff, blockSet2, true)
  {
  }

  /**
   * In normal mode a message ends up hidden by the extension iff some entry of
   * the stored list normalises to its username, so blocking ignores letter
   * case and surrounding whitespace.
   */
  lemma NormalModeHidesListed(p: Presentation, user: Option<UserElement>, staff: bool, list: seq<string>)
    requires Username(user) != ""
    ensures HiddenByExtension(Checked(p, user, staff, BlockSetOf(list), false))
      <==> exists i :: 0 <= i < |list| && NormalizeName(Some(list[i])) == Username(user)
  {
    BlockSetMembership(list, Username(user));
  }

  /** Checking a message twice with the same block set and flag is checking it once. */
  lemma CheckedIdempotent(p: Presentation, user: Option<UserElement>, staff: bool, blockSet: set<string>, staffOnly: bool)
    ensures var once := Checked(p, user, staff, blockSet, staffOnly);
      Checked(once, user, staff, blockSet, staffOnly) == once
  {
  }

  /** Only the extension's own hides are undone: a message hidden without the marker stays hidden. */
  lemma ForeignHideKept(p: Presentation, user: Option<UserElement>, staff: bool, blockSet: set<string>, staffOnly: bool)
    requires !HiddenByExtension(p)
    ensures var r := Checked(p, user, staff, blockSet, staffOnly);
      !HiddenByExtension(r) ==> r == p
  {
  }

  /** Hiding and then un-hiding restores the default presentation: no display override and no marker. */
  lemma UnhideUndoesHide()
    ensures Unhidden(Hidden()) == Presentation("", None)
  {
  }
}
