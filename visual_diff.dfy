/**
 * How the visual diff view projects a list of changes onto the rendered
 * diagram (src/components/Bpmn/VersionsPanel/VisualViewDiff.tsx). The diagram
 * viewer is reduced to what the projection touches: an element registry from
 * element id to shape, the list of marker classes added to the canvas, and
 * the list of overlays added to the overlay layer.
 */
module VisualDiff {
  import opened Wrappers
  import opened Versions

  /** A fill/stroke pair used to paint one kind of change. */
  datatype Colors = Colors(fill: string, stroke: string)

  const AddedColors: Colors := Colors("rgba(72, 187, 120, 0.3)", "#38A169")
  const ChangedColors: Colors := Colors("rgba(237, 137, 54, 0.3)", "#DD6B20")
  const MovedColors: Colors := Colors("rgba(128, 90, 213, 0.3)", "#805AD5")
  const RemovedColors: Colors := Colors("rgba(229, 62, 62, 0.3)", "#E53E3E")

  /**
   * The colour table keyed by the raw `changeType` string: it has an entry for
   * exactly the four literals of the change-type union.
   */
  function ChangeColors(changeType: string): (r: Option<Colors>)
    ensures r.Some? <==> IsChangeTypeName(changeType)
  {
    if changeType == ChangeTypeName(Added) then Some(AddedColors)
    else if changeType == ChangeTypeName(Changed) then Some(ChangedColors)
    else if changeType == ChangeTypeName(Moved) then Some(MovedColors)
    else if changeType == ChangeTypeName(Removed) then Some(RemovedColors)
    else None
  }

  /** Every kind has a colour entry, and no two kinds share one. */
  lemma ColorTableTotal(j: ChangeType, k: ChangeType)
    ensures ChangeColors(ChangeTypeName(k)).Some?
    ensures ChangeColors(ChangeTypeName(j)) == ChangeColors(ChangeTypeName(k)) ==> j == k
  {
    ChangeTypeNameInjective(j, k);
  }

  /** A diagram element as the registry reports it; connections have no width or height. */
  datatype Shape = Shape(id: string, width: Option<int>, height: Option<int>)

  /** JavaScript truthiness of an optional number (`undefined` and `0` are falsy). */
  predicate Truthy(n: Option<int>) {
    n.Some? && n.value != 0
  }

  datatype Bounds = Bounds(width: int, height: int)

  /** The size used when an element does not report both dimensions. */
  const DefaultBounds: Bounds := Bounds(100, 80)

  /**
   * The overlay size for an element: its own width and height when both are
   * truthy, otherwise the default for both dimensions together. Either way no
   * dimension is zero.
   */
  function OverlayBounds(e: Shape): (b: Bounds)
    ensures Truthy(e.width) && Truthy(e.height) ==> b.width == e.width.value && b.height == e.height.value
    ensures !(Truthy(e.width) && Truthy(e.height)) ==> b == DefaultBounds
    ensures b.width != 0 && b.height != 0
  {
    if Truthy(e.width) && Truthy(e.height) then Bounds(e.width.value, e.height.value)
    else DefaultBounds
  }

  /** A CSS class added to an element of the canvas. */
  datatype Marker = Marker(elementId: string, className: string)

  /** An overlay attached to an element: its type, anchor and painted box. */
  datatype Overlay = Overlay(
    elementId: string,
    overlayType: string,
    top: int,
    left: int,
    bounds: Bounds,
    colors: Colors)

  const OverlayType: string := "diff-highlight"

  /** What one change contributes to the canvas: one marker and one overlay. */
  datatype Highlight = Highlight(marker: Marker, overlay: Overlay)

  /**
   * `h` is the highlight of change `c` against `registry`: marker and overlay
   * sit on the change's element, the marker class is `diff-` followed by the
   * change type, the overlay is anchored at the top-left corner, sized from the
   * element and painted with the change type's colours.
   */
  ghost predicate Describes(h: Highlight, c: VersionChange, registry: map<string, Shape>) {
    c.elementId in registry &&
    ChangeColors(c.changeType).Some? &&
    h.marker == Marker(c.elementId, "diff-" + c.changeType) &&
    h.overlay.elementId == c.elementId &&
    h.overlay.overlayType == OverlayType &&
    h.overlay.top == 0 && h.overlay.left == 0 &&
    h.overlay.bounds == OverlayBounds(registry[c.elementId]) &&
    h.overlay.colors == ChangeColors(c.changeType).value
  }

  /**
   * One step of the loop: a change whose element is not in the registry, or
   * whose type has no colour entry, contributes nothing.
   */
  function Resolve(c: VersionChange, registry: map<string, Shape>): (r: Option<Highlight>)
    ensures r.Some? <==> c.elementId in registry && WellTyped(c)
    ensures r.Some? ==> Describes(r.value, c, registry)
  {
    if c.elementId !in registry then None
    else
      match ChangeColors(c.changeType)
      case None => None
      case Some(colors) =>
        var bounds := OverlayBounds(registry[c.elementId]);
        Some(Highlight(
          Marker(c.elementId, "diff-" + c.changeType),
          Overlay(c.elementId, OverlayType, 0, 0, bounds, colors)))
  }

  /** The highlights of a whole list of changes, in list order. */
  function Project(changes: seq<VersionChange>, registry: map<string, Shape>): (hs: seq<Highlight>)
    ensures |hs| <= |changes|
    ensures forall h :: h in hs ==> h.overlay.elementId in registry
  {
    if |changes| == 0 then []
    else
      var last := changes[|changes| - 1];
      var rest := Project(changes[..|changes| - 1], registry);
      match Resolve(last, registry)
      case None => rest
      case Some(h) => rest + [h]
  }

  function MarkersOf(hs: seq<Highlight>): seq<Marker> {
    seq(|hs|, i requires 0 <= i < |hs| => hs[i].marker)
  }

  function OverlaysOf(hs: seq<Highlight>): seq<Overlay> {
    seq(|hs|, i requires 0 <= i < |hs| => hs[i].overlay)
  }

  /** How many changes name an element that the registry holds. */
  function CountResolvable(changes: seq<VersionChange>, registry: map<string, Shape>): nat {
    if |changes| == 0 then 0
    else
      CountResolvable(changes[..|changes| - 1], registry) +
      (if changes[|changes| - 1].elementId in registry then 1 else 0)
  }

  // ---------------------------------------------------------------------------
  // Properties of the projection

  /** Projecting a concatenation projects each part and keeps their order. */
  lemma {:induction false} ProjectAppend(a: seq<VersionChange>, b: seq<VersionChange>, registry: map<string, Shape>)
    ensures Project(a + b, registry) == Project(a, registry) + Project(b, registry)
  {
    if |b| == 0 {
      assert a + b == a;
    } else {
      var b' := b[..|b| - 1];
      assert (a + b)[..|a + b| - 1] == a + b';
      assert (a + b)[|a + b| - 1] == b[|b| - 1];
      ProjectAppend(a, b', registry);
    }
  }

  /**
   * A change whose element is missing from the registry, or whose type has no
   * colour entry, adds neither a marker nor an overlay, and the changes after
   * it are still projected.
   */
  lemma UnresolvedSkipped(
    before: seq<VersionChange>, c: VersionChange, after: seq<VersionChange>, registry: map<string, Shape>)
    requires c.elementId !in registry || !WellTyped(c)
    ensures Project(before + [c] + after, registry) == Project(before, registry) + Project(after, registry)
  {
    ProjectAppend(before + [c], after, registry);
    ProjectAppend(before, [c], registry);
    assert [c][..0] == [];
  }

  /** Every change on a registered element that carries a legal type is highlighted, in place. */
  lemma ResolvedHighlighted(
    before: seq<VersionChange>, c: VersionChange, after: seq<VersionChange>, registry: map<string, Shape>)
    requires c.elementId in registry && WellTyped(c)
    ensures exists h :: (Describes(h, c, registry) &&
      Project(before + [c] + after, registry) == Project(before, registry) + [h] + Project(after, registry))
  {
    ProjectAppend(before + [c], after, registry);
    ProjectAppend(before, [c], registry);
    assert [c][..0] == [];
    var h := Resolve(c, registry).value;
    assert Describes(h, c, registry);
  }

  /** Each highlight produced describes some change of the input. */
  lemma {:induction false} ProjectSound(changes: seq<VersionChange>, registry: map<string, Shape>)
    ensures forall h :: h in Project(changes, registry) ==>
      exists c :: c in changes && Describes(h, c, registry)
  {
    if |changes| > 0 {
      var init := changes[..|changes| - 1];
      var last := changes[|changes| - 1];
      ProjectSound(init, registry);
      forall h | h in Project(changes, registry)
        ensures exists c :: c in changes && Describes(h, c, registry)
      {
        if h in Project(init, registry) {
          var c :| c in init && Describes(h, c, registry);
          assert c in changes;
        } else {
          assert Describes(h, last, registry);
        }
      }
    }
  }

  /**
   * For a well-typed list the colour skip never fires: exactly one highlight
   * per change whose element the registry holds.
   */
  lemma {:induction false} ProjectCount(changes: seq<VersionChange>, registry: map<string, Shape>)
    requires forall c :: c in changes ==> WellTyped(c)
    ensures |Project(changes, registry)| == CountResolvable(changes, registry)
  {
    if |changes| > 0 {
      var init := changes[..|changes| - 1];
      assert forall c :: c in init ==> c in changes;
      ProjectCount(init, registry);
    }
  }

  /** Over a registry that holds every element, every well-typed change is highlighted. */
  lemma {:induction false} ProjectTotal(changes: seq<VersionChange>, registry: map<string, Shape>)
    requires forall c :: c in changes ==> WellTyped(c) && c.elementId in registry
    ensures |Project(changes, registry)| == |changes|
  {
    if |changes| > 0 {
      var init := changes[..|changes| - 1];
      assert forall c :: c in init ==> c in changes;
      ProjectTotal(init, registry);
    }
  }

  // ---------------------------------------------------------------------------
  // The gate after import and the click listener

  /** The `showDiff` property defaults to true when it is not given. */
  function ShowDiff(showDiff: Option<bool>): bool {
    showDiff.GetOr(true)
  }

  /**
   * The highlights drawn once a diagram is imported: none unless diff display
   * is on and there is at least one change.
   */
  function DiffHighlights(showDiff: Option<bool>, changes: seq<VersionChange>, registry: map<string, Shape>)
    : (hs: seq<Highlight>)
    ensures !ShowDiff(showDiff) || |changes| == 0 ==> hs == []
    ensures hs == if ShowDiff(showDiff) then Project(changes, registry) else []
  {
    if ShowDiff(showDiff) && |changes| > 0 then Project(changes, registry) else []
  }

  /**
   * A click on the diagram reaches the handler, with the clicked element's id,
   * only when the event carries an element and a handler was given.
   */
  function ForwardClick(element: Option<Shape>, hasHandler: bool): (r: Option<string>)
    ensures r.Some? <==> element.Some? && hasHandler
    ensures r.Some? ==> r.value == element.value.id
  {
    if element.Some? && hasHandler then Some(element.value.id) else None
  }

  /** Every registry entry is stored under its own element id. */
  predicate RegistryKeyed(registry: map<string, Shape>) {
    forall k :: k in registry ==> registry[k].id == k
  }

  /**
   * Where the click listener and the projection meet: clicking the element
   * under any highlight forwards exactly the id the highlight was placed on.
   */
  lemma ClickOnHighlight(changes: seq<VersionChange>, registry: map<string, Shape>, h: Highlight)
    requires RegistryKeyed(registry)
    requires h in Project(changes, registry)
    ensures h.overlay.elementId in registry
    ensures ForwardClick(Some(registry[h.overlay.elementId]), true) == Some(h.overlay.elementId)
  {
  }

  // ---------------------------------------------------------------------------
  // The viewer state that the highlighting loop mutates

  /** The parts of an imported diagram viewer that highlighting reads and writes. */
  class Viewer {
    const registry: map<string, Shape>
    var markers: seq<Marker>
    var overlays: seq<Overlay>

    /** A viewer that has imported a diagram with the given elements and drawn nothing yet. */
    constructor (registry: map<string, Shape>)
      ensures this.registry == registry && markers == [] && overlays == []
    {
      this.registry := registry;
      markers := [];
      overlays := [];
    }

    /** `canvas.addMarker`: records one more marker class on an element. */
    method AddMarker(elementId: string, className: string)
      modifies this
      ensures markers == old(markers) + [Marker(elementId, className)]
      ensures overlays == old(overlays)
    {
      markers := markers + [Marker(elementId, className)];
    }

    /** `overlays.add`: attaches one more overlay to an element. */
    method AddOverlay(overlay: Overlay)
      modifies this
      ensures overlays == old(overlays) + [overlay]
      ensures markers == old(markers)
    {
      overlays := overlays + [overlay];
    }
  }

  /**
   * The highlighting loop: walks the changes in order, skipping those whose
   * element is missing or whose type has no colour, and adds one marker and
   * one overlay for each of the others.
   */
  method HighlightChanges(viewer: Viewer, changes: seq<VersionChange>)
    modifies viewer
    ensures viewer.markers == old(viewer.markers) + MarkersOf(Project(changes, viewer.registry))
    ensures viewer.overlays == old(viewer.overlays) + OverlaysOf(Project(changes, viewer.registry))
  {
    var i := 0;
    while i < |changes|
      invariant 0 <= i <= |changes|
      invariant viewer.markers == old(viewer.markers) + MarkersOf(Project(changes[..i], viewer.registry))
      invariant viewer.overlays == old(viewer.overlays) + OverlaysOf(Project(changes[..i], viewer.registry))
    {
      var change := changes[i];
      assert changes[..i + 1][..i] == changes[..i];
      ghost var done := Project(changes[..i], viewer.registry);
      if change.elementId in viewer.registry {
        var element := viewer.registry[change.elementId];
        var colors := ChangeColors(change.changeType);
        if colors.Some? {
          viewer.AddMarker(change.elementId, "diff-" + change.changeType);
          var bounds := OverlayBounds(element);
          var overlay := Overlay(change.elementId, OverlayType, 0, 0, bounds, colors.value);
          viewer.AddOverlay(overlay);
          var h := Highlight(Marker(change.elementId, "diff-" + change.changeType), overlay);
          assert MarkersOf(done + [h]) == MarkersOf(done) + [h.marker];
          assert OverlaysOf(done + [h]) == OverlaysOf(done) + [h.overlay];
        }
      }
      i := i + 1;
    }
    assert changes[..i] == changes;
  }

  /**
   * What the viewer shows after import: the highlighting loop runs only when
   * diff display is on and there are changes.
   */
  method ApplyDiff(viewer: Viewer, showDiff: Option<bool>, changes: seq<VersionChange>)
    modifies viewer
    ensures viewer.markers == old(viewer.markers) + MarkersOf(DiffHighlights(showDiff, changes, viewer.registry))
    ensures viewer.overlays == old(viewer.overlays) + OverlaysOf(DiffHighlights(showDiff, changes, viewer.registry))
  {
    if ShowDiff(showDiff) && |changes| > 0 {
      HighlightChanges(viewer, changes);
    } else {
      assert MarkersOf([]) == [] && OverlaysOf([]) == [];
    }
  }
}
