/**
 * The click rule of the versions history panel
 * (src/components/Bpmn/VersionsPanel/VersionsHistoryPanel.tsx). The panel keeps
 * no state of its own: each click is turned into at most one request to the
 * parent, `onVersionSelect(version, isBaseVersion)`, which this model returns
 * as an `Intent` value.
 */
module HistoryPanel {
  import opened Wrappers
  import opened Versions

  /** An optional version id, as in `baseVersionId?: string`. */
  type Slot = Option<string>

  /** JavaScript truthiness of a slot: both `undefined` and `""` count as empty. */
  predicate Filled(slot: Slot) {
    slot.Some? && slot.value != ""
  }

  /** What a version is in the current selection (`"base"`, `"compare"` or `null`). */
  datatype SelectionState = BaseSelected | CompareSelected | Unselected

  /**
   * Classifies a version id by strict equality with the two slots; the base
   * slot is tested first, so an id held by both slots is reported as base.
   */
  function GetSelectionState(versionId: string, base: Slot, compare: Slot): (r: SelectionState)
    ensures r == BaseSelected <==> base == Some(versionId)
    ensures r == CompareSelected <==> base != Some(versionId) && compare == Some(versionId)
    ensures r == Unselected <==> base != Some(versionId) && compare != Some(versionId)
  {
    if base == Some(versionId) then BaseSelected
    else if compare == Some(versionId) then CompareSelected
    else Unselected
  }

  /** The request a click issues: `onVersionSelect(v, true)`, `onVersionSelect(v, false)`, or nothing. */
  datatype Intent = SelectBase(version: Version) | SelectCompare(version: Version) | NoOp

  /**
   * The click handler. Outside diff mode every click asks for the clicked
   * version as base. In diff mode a click on the base does nothing, a click on
   * the compare version asks to promote it to base, and any other click asks
   * for base when the base slot is empty and for compare otherwise (filling an
   * empty compare slot or replacing the present one).
   */
  function HandleVersionClick(showChanges: bool, base: Slot, compare: Slot, v: Version): (r: Intent)
    ensures !r.NoOp? ==> r.version == v
    ensures r.NoOp? <==> showChanges && base == Some(v.id)
    ensures r.SelectBase? <==>
      !showChanges || (base != Some(v.id) && (compare == Some(v.id) || !Filled(base)))
    ensures r.SelectCompare? <==>
      showChanges && Filled(base) && base != Some(v.id) && compare != Some(v.id)
  {
    if !showChanges then
      SelectBase(v)
    else
      match GetSelectionState(v.id, base, compare)
      case BaseSelected => NoOp
      case CompareSelected => SelectBase(v)
      case Unselected =>
        if !Filled(base) then SelectBase(v)
        else if !Filled(compare) then SelectCompare(v)
        else SelectCompare(v)
  }

  const BaseGuide: string := "Click to select base version"
  const CompareGuide: string := "Click to select version to compare"
  const ChangeGuide: string := "Click on another version to change comparison"

  /** The hint shown above the list in diff mode, chosen by which slots are filled. */
  function GuideMessage(base: Slot, compare: Slot): (msg: string)
    ensures msg == BaseGuide <==> !Filled(base)
    ensures msg == CompareGuide <==> Filled(base) && !Filled(compare)
    ensures msg == ChangeGuide <==> Filled(base) && Filled(compare)
  {
    if !Filled(base) then BaseGuide
    else if !Filled(compare) then CompareGuide
    else ChangeGuide
  }

  /** The guide box is rendered only in diff mode. */
  function SelectionGuide(showChanges: bool, base: Slot, compare: Slot): (r: Option<string>)
    ensures r.Some? <==> showChanges
    ensures r.Some? ==> r.value == GuideMessage(base, compare)
    ensures r.Some? ==> r.value in {BaseGuide, CompareGuide, ChangeGuide}
  {
    if showChanges then Some(GuideMessage(base, compare)) else None
  }

  // ---------------------------------------------------------------------------
  // Properties of the click rule

  /** Outside diff mode a click always asks for base, even on the current base. */
  lemma SingleModeSelectsBase(base: Slot, compare: Slot, v: Version)
    ensures HandleVersionClick(false, base, compare, v) == SelectBase(v)
  {
  }

  /**
   * In diff mode, a click on a version that is neither base nor compare asks for
   * base exactly when the base slot is empty, and for compare otherwise, whether
   * or not a compare version is already chosen.
   */
  lemma UnselectedClick(base: Slot, compare: Slot, v: Version)
    requires base != Some(v.id) && compare != Some(v.id)
    ensures !Filled(base) ==> HandleVersionClick(true, base, compare, v) == SelectBase(v)
    ensures Filled(base) ==> HandleVersionClick(true, base, compare, v) == SelectCompare(v)
  {
  }

  // ---------------------------------------------------------------------------
  // The selection protocol as a four-phase machine, and the click rule against it

  /** The phases of the two-slot picker. */
  datatype Phase = Single | DiffNoneSelected | DiffBaseOnly | DiffBothSelected

  /** The phase the panel's inputs describe. */
  function PhaseOf(showChanges: bool, base: Slot, compare: Slot): Phase {
    if !showChanges then Single
    else if !Filled(base) then DiffNoneSelected
    else if !Filled(compare) then DiffBaseOnly
    else DiffBothSelected
  }

  /**
   * The request the protocol calls for, phase by phase: single view replaces
   * the base; with no base the click picks one; with a base only, a click on
   * it is a no-op and any other picks compare; with both, a click on the base
   * is a no-op, on the compare promotes it, on any other replaces compare.
   */
  function ProtocolIntent(p: Phase, base: Slot, compare: Slot, v: Version): Intent {
    match p
    case Single => SelectBase(v)
    case DiffNoneSelected => SelectBase(v)
    case DiffBaseOnly => if base == Some(v.id) then NoOp else SelectCompare(v)
    case DiffBothSelected =>
      if base == Some(v.id) then NoOp
      else if compare == Some(v.id) then SelectBase(v)
      else SelectCompare(v)
  }

  /** Neither slot holds the empty id (the parent passes `version?.id`). */
  predicate NoEmptyIds(base: Slot, compare: Slot) {
    base != Some("") && compare != Some("")
  }

  /**
   * The handler issues exactly the request the four-phase protocol calls for,
   * in every phase, provided no slot holds the empty string; in particular a
   * compare slot filled while the base is empty is handled as "no base yet".
   */
  lemma ClickFollowsProtocol(showChanges: bool, base: Slot, compare: Slot, v: Version)
    requires NoEmptyIds(base, compare)
    ensures HandleVersionClick(showChanges, base, compare, v) ==
            ProtocolIntent(PhaseOf(showChanges, base, compare), base, compare, v)
  {
  }

  /**
   * Where the two notions of "empty" part: a base slot holding `""` is empty to
   * the truthiness tests but still matches a version whose id is `""` under
   * strict equality, so that click does nothing instead of selecting a base.
   */
  lemma EmptyBaseIdIsNoOp(compare: Slot, v: Version)
    requires v.id == ""
    ensures PhaseOf(true, Some(""), compare) == DiffNoneSelected
    ensures HandleVersionClick(true, Some(""), compare, v) == NoOp
    ensures ProtocolIntent(DiffNoneSelected, Some(""), compare, v) == SelectBase(v)
  {
  }
}
