# Version selection and visual diff highlighting

This project models the two pieces of decision logic in the versions panel of a
BPMN process modeller:

- **The history panel's click rule** (`VersionsHistoryPanel.tsx`). The user picks a
  *base* version and, in diff mode (`showChanges`), a *compare* version. The panel
  keeps no state. Each click becomes at most one request to its parent,
  `onVersionSelect(version, isBaseVersion)`. The model returns that request as an
  `Intent` value: `SelectBase(v)`, `SelectCompare(v)` or `NoOp`. The guide line
  shown above the list is a function of which slots are filled. Slot emptiness
  follows JavaScript truthiness: `undefined` and `""` are both empty. The test that
  classifies a clicked version uses strict equality instead. The rule is also
  proved equal to the request of a four-phase protocol (single view, diff with no
  base, diff with base only, diff with both) whenever no slot holds `""`.
- **The visual diff projection** (`VisualViewDiff.tsx`). After a diagram is imported,
  each change is projected onto the viewer in order. A change whose element is not
  in the element registry is skipped. So is a change whose type has no entry in the
  colour table. Every other change adds one marker class `diff-<changeType>` and
  one `diff-highlight` overlay, anchored at the top-left corner. The overlay is
  sized from the element, or 100×80 when the element lacks a truthy width or
  height. The viewer is reduced to an element registry (a map from id to shape)
  and two sequences: the markers added and the overlays added. The loop is a
  method over that state, proved against the pure function `Project`.

Files: `wrappers.dfy` (Option), `versions.dfy` (the version and change records of
`src/interfaces/version.ts`), `history_panel.dfy`, `visual_diff.dfy`.

## Model

| member | source | states |
|---|---|---|
| `Versions.ChangeTypeNameInjective` | src/interfaces/version.ts:30 | the four change-type literals are pairwise distinct |
| `HistoryPanel.GetSelectionState` | src/components/Bpmn/VersionsPanel/VersionsHistoryPanel.tsx:55-59 | "base" exactly when the id equals the base slot, even if it also equals the compare slot; "compare" only when it equals the compare slot and not the base; none otherwise |
| `HistoryPanel.HandleVersionClick` | src/components/Bpmn/VersionsPanel/VersionsHistoryPanel.tsx:61-90 | any request issued is for the clicked version. No request exactly when diff mode is on and the click is on the base. A base request exactly when diff mode is off, or the click is not on the base and is on the compare or the base slot is empty. A compare request exactly when diff mode is on, the base slot is filled and the click is on neither slot |
| `HistoryPanel.SingleModeSelectsBase` | src/components/Bpmn/VersionsPanel/VersionsHistoryPanel.tsx:62-65 | with diff mode off every click asks for base, whatever the slots hold |
| `HistoryPanel.UnselectedClick` | src/components/Bpmn/VersionsPanel/VersionsHistoryPanel.tsx:77-88 | in diff mode a click on an unselected version asks for base iff the base slot is empty, otherwise for compare, whether or not a compare is set |
| `HistoryPanel.ClickFollowsProtocol` | src/components/Bpmn/VersionsPanel/VersionsHistoryPanel.tsx:61-90 | when no slot holds `""`, the request equals the four-phase protocol's: no-op on the base, promotion of the compare, replacement of the compare, base pick with no base |
| `HistoryPanel.EmptyBaseIdIsNoOp` | src/components/Bpmn/VersionsPanel/VersionsHistoryPanel.tsx:55-82 | a base slot holding `""` counts as empty for the phase, yet a click on a version with id `""` is a no-op where the protocol asks for base |
| `HistoryPanel.GuideMessage` | src/components/Bpmn/VersionsPanel/VersionsHistoryPanel.tsx:118-122 | the "select base" text iff the base slot is empty, "select compare" iff only the compare slot is empty, "change comparison" iff both are filled |
| `HistoryPanel.SelectionGuide` | src/components/Bpmn/VersionsPanel/VersionsHistoryPanel.tsx:109-125 | a guide is shown iff diff mode is on, and the text shown is the one `GuideMessage` picks from the slots |
| `VisualDiff.ChangeColors` | src/components/Bpmn/VersionsPanel/VisualViewDiff.tsx:14-19 | the colour table has an entry exactly for the four change-type literals |
| `VisualDiff.ColorTableTotal` | src/components/Bpmn/VersionsPanel/VisualViewDiff.tsx:14-19 | every change type has a colour entry, so the skip at line 109 never fires on a well-typed change; no two types share an entry |
| `VisualDiff.OverlayBounds` | src/components/Bpmn/VersionsPanel/VisualViewDiff.tsx:115-121 | the element's own size when width and height are both truthy, otherwise 100×80 for both together; never a zero dimension |
| `VisualDiff.Resolve` | src/components/Bpmn/VersionsPanel/VisualViewDiff.tsx:105-133 | one change yields a highlight iff its element is registered and its type is legal; the highlight is the `diff-<type>` marker and a top-left overlay with the element's bounds and the type's colours |
| `VisualDiff.Project` | src/components/Bpmn/VersionsPanel/VisualViewDiff.tsx:104-134 | no more highlights than changes, each on a registered element |
| `VisualDiff.ProjectAppend` | src/components/Bpmn/VersionsPanel/VisualViewDiff.tsx:104-134 | the projection of a concatenation is the concatenation of the projections, so highlights follow the order of the changes |
| `VisualDiff.UnresolvedSkipped` | src/components/Bpmn/VersionsPanel/VisualViewDiff.tsx:104-109 | a change on an unregistered element, or with a type that has no colour entry, adds nothing, and the changes after it are still projected |
| `VisualDiff.ResolvedHighlighted` | src/components/Bpmn/VersionsPanel/VisualViewDiff.tsx:108-133 | a well-typed change on a registered element adds exactly one highlight describing it, in its place |
| `VisualDiff.ProjectSound` | src/components/Bpmn/VersionsPanel/VisualViewDiff.tsx:104-134 | every highlight describes some change of the input |
| `VisualDiff.ProjectCount` | src/components/Bpmn/VersionsPanel/VisualViewDiff.tsx:104-134 | for well-typed changes, the number of highlights equals the number of changes whose element is registered |
| `VisualDiff.ProjectTotal` | src/components/Bpmn/VersionsPanel/VisualViewDiff.tsx:104-134 | when every element is registered and every change well-typed, there is one highlight per change |
| `VisualDiff.DiffHighlights` | src/components/Bpmn/VersionsPanel/VisualViewDiff.tsx:67-69 | nothing is drawn when `showDiff` is false or there are no changes; otherwise the projection (`showDiff` defaults to true) |
| `VisualDiff.ForwardClick` | src/components/Bpmn/VersionsPanel/VisualViewDiff.tsx:73-78 | the handler receives the element's id iff both an element and a handler are present |
| `VisualDiff.ClickOnHighlight` | src/components/Bpmn/VersionsPanel/VisualViewDiff.tsx:73-78 | when the registry stores each shape under its own id, clicking the element under a highlight forwards exactly the id the highlight was placed on |
| `VisualDiff.Viewer.constructor` | src/components/Bpmn/VersionsPanel/VisualViewDiff.tsx:54-60 | a freshly imported viewer holds the diagram's registry and no markers or overlays |
| `VisualDiff.Viewer.AddMarker` | src/components/Bpmn/VersionsPanel/VisualViewDiff.tsx:112 | appends one marker and leaves the overlays unchanged |
| `VisualDiff.Viewer.AddOverlay` | src/components/Bpmn/VersionsPanel/VisualViewDiff.tsx:123-133 | appends one overlay and leaves the markers unchanged |
| `VisualDiff.HighlightChanges` | src/components/Bpmn/VersionsPanel/VisualViewDiff.tsx:98-138 | the loop appends exactly the markers and overlays of `Project(changes)`, in order, to what the viewer already held |
| `VisualDiff.ApplyDiff` | src/components/Bpmn/VersionsPanel/VisualViewDiff.tsx:66-69 | after import the viewer gains exactly the highlights of `DiffHighlights` |

## Left out

- The parent's reaction to `onVersionSelect` (how the slots change, auto-selection of the newest versions, clearing a slot when its version is deleted) is in `src/pages/studio/modeler/[id]/versions.tsx`, which is not part of this model. The model therefore states which request a click issues, not what the slots become.
- Date grouping and time formatting (`getVersionsGroupedByDate`, `formatVersionTime`) come from a mock module that is not part of this model.
- The viewer lifecycle (dynamic import of the viewer library, destroy and re-create, asynchronous XML import, the error and loading states) is asynchronous and wraps a foreign library. `Viewer.constructor` stands for a successful import with a given element registry.
- The `try`/`catch` around the highlighting loop is not modelled: `AddMarker` and `AddOverlay` never fail in the model.
- The overlay's HTML string is reduced to its parameters (bounds and colours). JSX rendering, styling and the CSS marker styles are left out.
- Numbers are integers. Fractional sizes and `NaN` (a falsy number) are not modelled.
- The colour lookup is modelled on the table's four own keys. JavaScript would also find keys inherited from `Object.prototype`, such as `"constructor"`. This matters only for a `changeType` outside the declared union.
- The bpmn-js canvas keeps marker classes as a set per element. The model records the sequence of `addMarker` calls, so a repeated class appears twice.
- The version REST client (`src/apis/versionApi.ts`) and the bottom panel (`src/components/Bpmn/BpmnBottomPanel.tsx`) are network and UI code and are left out. So are a version's `variables` and `activities` payloads.
- No code in these files diffs two BPMN documents or tallies change counts. No diff algorithm is modelled, and no invariant is claimed between a comparison's counts and its changes.
