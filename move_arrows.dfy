/**
  The three-arrow move gizmo (AMoveArrows): which arrow is highlighted, whether
  an arrow is being dragged and along which axis, the colour each arrow's
  dynamic material shows, and the rule that makes the gizmo and the selected
  object follow each other.

  The state is kept twice: as fields of the class MoveArrows, updated in place
  by its event methods as the engine actor does, and as the value GizmoState,
  on which each event is a pure transition function. Every method of the
  class is proved to move its fields exactly as the matching transition moves
  the value, and the properties of the events are stated on the transitions.
 */
module Gizmo {
  import opened Scene

  /** The three arrow meshes of the gizmo. */
  datatype Arrow = Forward | Up | Right

  /**
    A primitive component that a cursor event or a trace can name: one of the
    gizmo's arrow meshes, or any other component in the scene.
   */
  datatype Component = ArrowMesh(arrow: Arrow) | OtherComponent(id: nat)

  /** The colours the arrows are painted with. */
  datatype Color = White | Red | Blue | Yellow | Green

  /**
    The direction a drag moves along: the gizmo actor's own right, up or
    forward unit vector, or the zero vector a fresh actor starts with.
   */
  datatype Direction = ZeroVector | ActorRightVector | ActorUpVector | ActorForwardVector

  /** The colour an arrow shows when it is not highlighted. */
  function NormalColor(a: Arrow): Color {
    match a
    case Right => White
    case Up => Blue
    case Forward => Green
  }

  /** The colour an arrow shows while it is highlighted. */
  function HoveredColor(a: Arrow): Color {
    match a
    case Right => Red
    case Up => Yellow
    case Forward => White
  }

  /** The axis an arrow drags along. */
  function AxisOf(a: Arrow): Direction {
    match a
    case Right => ActorRightVector
    case Up => ActorUpVector
    case Forward => ActorForwardVector
  }

  /**
    A snapshot of the gizmo. `arrowColor` holds the colour parameter of each
    arrow's dynamic material; an arrow is absent from it while it has no
    dynamic material, and every colour change to such an arrow is skipped.
   */
  datatype GizmoState = GizmoState(
    highlighted: Option<Component>,
    dragging: bool,
    dragged: Option<Component>,
    dragDirection: Direction,
    dragStart: Location,
    location: Location,
    arrowColor: map<Arrow, Color>,
    forwardVisible: bool,
    upVisible: bool,
    rightVisible: bool)

  /**
    The gizmo's invariant: a drag is in progress exactly when there is a
    dragged component, which is an arrow dragged along its own axis, and the
    highlight is either absent or an arrow that has a dynamic material.
   */
  predicate Consistent(s: GizmoState) {
    && (s.dragging <==> s.dragged.Some?)
    && (s.dragged.Some? ==> s.dragged.value.ArrowMesh? && s.dragDirection == AxisOf(s.dragged.value.arrow))
    && (s.highlighted.Some? ==> s.highlighted.value.ArrowMesh? && s.highlighted.value.arrow in s.arrowColor)
  }

  /** The gizmo as its constructor leaves it at `location`. */
  function Initial(location: Location): (s: GizmoState)
    ensures Consistent(s) && !s.dragging && s.highlighted.None?
  {
    GizmoState(None, false, None, ZeroVector, Origin, location, map[], true, true, true)
  }

  /** Paints arrow `a` with its hovered colour and makes it the highlighted arrow. */
  function Highlight(s: GizmoState, a: Arrow): GizmoState
    requires a in s.arrowColor
  {
    s.(arrowColor := s.arrowColor[a := HoveredColor(a)], highlighted := Some(ArrowMesh(a)))
  }

  /**
    Restores the normal colour of the highlighted arrow (when it has a dynamic
    material) and clears the highlight.
   */
  function Unhighlight(s: GizmoState): GizmoState {
    var colors :=
      if s.highlighted.Some? && s.highlighted.value.ArrowMesh? && s.highlighted.value.arrow in s.arrowColor
      then s.arrowColor[s.highlighted.value.arrow := NormalColor(s.highlighted.value.arrow)]
      else s.arrowColor;
    s.(highlighted := None, arrowColor := colors)
  }

  /**
    OnConstruction: every arrow whose editor material is set gets a fresh
    dynamic material painted in its normal colour; the others keep whatever
    dynamic material (if any) they had.
   */
  function Construct(s: GizmoState, materials: set<Arrow>): (r: GizmoState)
    ensures r.arrowColor.Keys == s.arrowColor.Keys + materials
    ensures forall a :: a in materials ==> r.arrowColor[a] == NormalColor(a)
    ensures forall a :: a in s.arrowColor && a !in materials ==> r.arrowColor[a] == s.arrowColor[a]
    ensures r == s.(arrowColor := r.arrowColor)
    ensures Consistent(s) ==> Consistent(r)
  {
    var colors := PaintAll(s.arrowColor, materials);
    PaintAllColors(s.arrowColor, materials);
    s.(arrowColor := colors)
  }

  /** OnConstruction's three steps, right arrow first, then up, then forward. */
  function PaintAll(colors: map<Arrow, Color>, materials: set<Arrow>): map<Arrow, Color> {
    Paint(Paint(Paint(colors, materials, Right), materials, Up), materials, Forward)
  }

  /** The three steps paint exactly the arrows with a set material and keep the other colours. */
  lemma PaintAllColors(colors: map<Arrow, Color>, materials: set<Arrow>)
    ensures PaintAll(colors, materials).Keys == colors.Keys + materials
    ensures forall a :: a in materials ==> PaintAll(colors, materials)[a] == NormalColor(a)
    ensures forall a :: a in colors && a !in materials ==> PaintAll(colors, materials)[a] == colors[a]
  {
    MaterialsOfThree(materials);
    var c1 := Paint(colors, materials, Right);
    var c2 := Paint(c1, materials, Up);
    var c3 := Paint(c2, materials, Forward);
    forall a | a in materials ensures c3[a] == NormalColor(a) {
      match a
      case Right =>
      case Up =>
      case Forward =>
    }
  }

  /** Every set of arrows is made of the three arrows it contains. */
  lemma MaterialsOfThree(materials: set<Arrow>)
    ensures materials == (if Right in materials then {Right} else {}) + (if Up in materials then {Up} else {})
                         + (if Forward in materials then {Forward} else {})
  {
    forall a | a in materials
      ensures a in (if Right in materials then {Right} else {}) + (if Up in materials then {Up} else {})
                   + (if Forward in materials then {Forward} else {})
    {
      match a
      case Right =>
      case Up =>
      case Forward =>
    }
  }

  /** One arrow's step of OnConstruction: a set editor material gives it the normal colour. */
  function Paint(colors: map<Arrow, Color>, materials: set<Arrow>, a: Arrow): (r: map<Arrow, Color>)
    ensures r.Keys == colors.Keys + (if a in materials then {a} else {})
    ensures a in materials ==> r[a] == NormalColor(a)
    ensures forall b :: b in colors && b != a ==> r[b] == colors[b]
    ensures a !in materials ==> r == colors
  {
    if a in materials then colors[a := NormalColor(a)] else colors
  }

  /** SetVisibility: all three arrows get the same visibility. */
  function AllVisible(s: GizmoState, visible: bool): (r: GizmoState)
    ensures r.forwardVisible == visible && r.upVisible == visible && r.rightVisible == visible
    ensures r == s.(forwardVisible := r.forwardVisible, upVisible := r.upVisible, rightVisible := r.rightVisible)
    ensures Consistent(s) ==> Consistent(r)
  {
    s.(forwardVisible := visible, upVisible := visible, rightVisible := visible)
  }

  /**
    OnCursorOver: while dragging nothing changes; otherwise an arrow with a
    dynamic material becomes the highlight, shown in its hovered colour, and
    any other component leaves the gizmo as it is.
   */
  function CursorOver(s: GizmoState, touched: Component): (r: GizmoState)
    ensures s.dragging ==> r == s
    ensures !s.dragging && touched.ArrowMesh? && touched.arrow in s.arrowColor ==>
              r == s.(highlighted := Some(touched),
                      arrowColor := s.arrowColor[touched.arrow := HoveredColor(touched.arrow)])
    ensures !(touched.ArrowMesh? && touched.arrow in s.arrowColor) ==> r == s
    ensures Consistent(s) ==> Consistent(r)
  {
    if s.dragging then s
    else if touched == ArrowMesh(Right) && Right in s.arrowColor then Highlight(s, Right)
    else if touched == ArrowMesh(Up) && Up in s.arrowColor then Highlight(s, Up)
    else if touched == ArrowMesh(Forward) && Forward in s.arrowColor then Highlight(s, Forward)
    else s
  }

  /**
    OnCursorEnd: while dragging nothing changes; leaving the highlighted
    component clears the highlight and restores that arrow's normal colour;
    leaving any other component changes nothing.
   */
  function CursorEnd(s: GizmoState, touched: Component): (r: GizmoState)
    ensures s.dragging || s.highlighted != Some(touched) ==> r == s
    ensures !s.dragging && s.highlighted == Some(touched) ==>
              r.highlighted.None? && r == s.(highlighted := None, arrowColor := r.arrowColor)
    ensures !s.dragging && s.highlighted == Some(touched) && touched.ArrowMesh? && touched.arrow in s.arrowColor ==>
              r.arrowColor == s.arrowColor[touched.arrow := NormalColor(touched.arrow)]
    ensures Consistent(s) ==> Consistent(r)
  {
    if s.dragging then s
    else if s.highlighted == Some(touched) then Unhighlight(s)
    else s
  }

  /** StartDragging: the flag part of starting a drag of `c` along `direction`. */
  function DragStarted(s: GizmoState, c: Component, direction: Direction): GizmoState {
    s.(dragging := true, dragged := Some(c), dragDirection := direction, dragStart := s.location)
  }

  /**
    OnArrowClicked: clicking an arrow starts a drag of that arrow along its
    own axis from the gizmo's current location, and highlights it when it has
    a dynamic material. Clicking anything else changes nothing.
   */
  function ArrowClicked(s: GizmoState, touched: Component): (r: GizmoState)
    ensures !touched.ArrowMesh? ==> r == s
    ensures touched.ArrowMesh? ==>
              && r.dragging && r.dragged == Some(touched)
              && r.dragDirection == AxisOf(touched.arrow)
              && r.dragStart == s.location && r.location == s.location
    ensures touched.ArrowMesh? && touched.arrow in s.arrowColor ==>
              r.highlighted == Some(touched)
              && r.arrowColor == s.arrowColor[touched.arrow := HoveredColor(touched.arrow)]
    ensures touched.ArrowMesh? && touched.arrow !in s.arrowColor ==>
              r.highlighted == s.highlighted && r.arrowColor == s.arrowColor
    ensures r.forwardVisible == s.forwardVisible && r.upVisible == s.upVisible && r.rightVisible == s.rightVisible
    ensures Consistent(s) ==> Consistent(r)
  {
    match touched
    case ArrowMesh(a) =>
      var d := DragStarted(s, touched, AxisOf(a));
      if a in d.arrowColor then Highlight(d, a) else d
    case OtherComponent(_) => s
  }

  /**
    StopDragging: the drag always ends. The highlight is kept when there is no
    player controller, or when the component under the cursor is the
    highlighted arrow; otherwise it is cleared and the arrow's normal colour is
    restored. `cursorHit` is the component the cursor is over, None when the
    mouse position is unknown or the cursor is over no component.
   */
  function DragStopped(s: GizmoState, hasController: bool, cursorHit: Option<Component>): (r: GizmoState)
    ensures !r.dragging && r.dragged.None?
    ensures r.dragDirection == s.dragDirection && r.dragStart == s.dragStart && r.location == s.location
    ensures r.forwardVisible == s.forwardVisible && r.upVisible == s.upVisible && r.rightVisible == s.rightVisible
    ensures !hasController || (cursorHit.Some? && cursorHit == s.highlighted) ==>
              r.highlighted == s.highlighted && r.arrowColor == s.arrowColor
    ensures hasController && !(cursorHit.Some? && cursorHit == s.highlighted) ==>
              r.highlighted.None?
              && (s.highlighted.Some? && s.highlighted.value.ArrowMesh? && s.highlighted.value.arrow in s.arrowColor ==>
                    r.arrowColor == s.arrowColor[s.highlighted.value.arrow := NormalColor(s.highlighted.value.arrow)])
    ensures Consistent(s) ==> Consistent(r)
  {
    var d := s.(dragging := false, dragged := None);
    if !hasController then d
    else if cursorHit.Some? && cursorHit == d.highlighted then d
    else Unhighlight(d)
  }

  /** Where the gizmo and the selected object stand after the follow rule. */
  datatype Placement = Placement(gizmo: Location, selected: Location)

  /**
    The follow rule of Tick: a gizmo that is not dragging jumps to the
    selected object; during a drag the selected object jumps to the gizmo.
    Either way the two end up at the same place.
   */
  function Follow(dragging: bool, gizmo: Location, selected: Location): (r: Placement)
    ensures r.gizmo == r.selected
    ensures !dragging ==> r.selected == selected
    ensures dragging ==> r.gizmo == gizmo
  {
    if !dragging then Placement(selected, selected) else Placement(gizmo, gizmo)
  }

  /** Hovering an arrow and leaving it again restores a gizmo at rest. */
  lemma HoverThenLeave(s: GizmoState, a: Arrow)
    requires Consistent(s) && !s.dragging && s.highlighted.None?
    requires a in s.arrowColor && s.arrowColor[a] == NormalColor(a)
    ensures CursorEnd(CursorOver(s, ArrowMesh(a)), ArrowMesh(a)) == s
  {
  }

  /**
    A click followed by a release with the cursor still on the arrow leaves
    the arrow highlighted and no drag in progress.
   */
  lemma ClickThenReleaseOnArrow(s: GizmoState, a: Arrow, hasController: bool)
    requires Consistent(s) && a in s.arrowColor
    ensures var r := DragStopped(ArrowClicked(s, ArrowMesh(a)), hasController, Some(ArrowMesh(a)));
            r.highlighted == Some(ArrowMesh(a)) && !r.dragging && Consistent(r)
  {
  }

  /** Ending a drag twice is the same as ending it once. */
  lemma StopDraggingIdempotent(s: GizmoState, hasController: bool, cursorHit: Option<Component>)
    ensures var r := DragStopped(s, hasController, cursorHit);
            DragStopped(r, hasController, cursorHit) == r
  {
  }

  /** AMoveArrows: the gizmo actor, its fields updated in place by the engine events. */
  class MoveArrows {
    var highlightedArrow: Option<Component>
    var isDragging: bool
    var draggedComponent: Option<Component>
    var dragDirection: Direction
    var dragStartLocation: Location
    var location: Location
    var arrowColor: map<Arrow, Color>
    var forwardVisible: bool
    var upVisible: bool
    var rightVisible: bool
    /** The arrows whose editor-assigned material is set. */
    var materials: set<Arrow>

    function State(): GizmoState
      reads this
    {
      GizmoState(highlightedArrow, isDragging, draggedComponent, dragDirection, dragStartLocation,
                 location, arrowColor, forwardVisible, upVisible, rightVisible)
    }

    predicate Valid()
      reads this
    {
      Consistent(State())
    }

    constructor (materials: set<Arrow>, location: Location)
      ensures Valid() && State() == Initial(location) && this.materials == materials
    {
      highlightedArrow := None;
      isDragging := false;
      draggedComponent := None;
      dragDirection := ZeroVector;
      dragStartLocation := Origin;
      this.location := location;
      arrowColor := map[];
      forwardVisible, upVisible, rightVisible := true, true, true;
      this.materials := materials;
    }

    method OnConstruction()
      requires Valid()
      modifies this`arrowColor
      ensures Valid() && State() == Construct(old(State()), materials)
    {
      if Right in materials {
        arrowColor := arrowColor[Right := NormalColor(Right)];
      }
      if Up in materials {
        arrowColor := arrowColor[Up := NormalColor(Up)];
      }
      if Forward in materials {
        arrowColor := arrowColor[Forward := NormalColor(Forward)];
      }
    }

    method SetVisibility(visible: bool)
      requires Valid()
      modifies this`forwardVisible, this`upVisible, this`rightVisible
      ensures Valid() && State() == AllVisible(old(State()), visible)
    {
      forwardVisible := visible;
      upVisible := visible;
      rightVisible := visible;
    }

    method OnCursorOver(touched: Component)
      requires Valid()
      modifies this`highlightedArrow, this`arrowColor
      ensures Valid() && State() == CursorOver(old(State()), touched)
    {
      if isDragging {
        return;
      }
      if touched == ArrowMesh(Right) && Right in arrowColor {
        arrowColor := arrowColor[Right := HoveredColor(Right)];
        highlightedArrow := Some(ArrowMesh(Right));
      } else if touched == ArrowMesh(Up) && Up in arrowColor {
        arrowColor := arrowColor[Up := HoveredColor(Up)];
        highlightedArrow := Some(ArrowMesh(Up));
      } else if touched == ArrowMesh(Forward) && Forward in arrowColor {
        arrowColor := arrowColor[Forward := HoveredColor(Forward)];
        highlightedArrow := Some(ArrowMesh(Forward));
      }
    }

    /** Paints the highlighted arrow in its normal colour and clears the highlight. */
    method RestoreHighlighted()
      requires Valid()
      modifies this`highlightedArrow, this`arrowColor
      ensures Valid() && State() == Unhighlight(old(State()))
    {
      if highlightedArrow == Some(ArrowMesh(Right)) && Right in arrowColor {
        arrowColor := arrowColor[Right := NormalColor(Right)];
      } else if highlightedArrow == Some(ArrowMesh(Up)) && Up in arrowColor {
        arrowColor := arrowColor[Up := NormalColor(Up)];
      } else if highlightedArrow == Some(ArrowMesh(Forward)) && Forward in arrowColor {
        arrowColor := arrowColor[Forward := NormalColor(Forward)];
      }
      highlightedArrow := None;
    }

    method OnCursorEnd(touched: Component)
      requires Valid()
      modifies this`highlightedArrow, this`arrowColor
      ensures Valid() && State() == CursorEnd(old(State()), touched)
    {
      if isDragging {
        return;
      }
      if highlightedArrow == Some(touched) {
        RestoreHighlighted();
      }
    }

    method StartDragging(component: Component, direction: Direction)
      requires Valid() && component.ArrowMesh? && direction == AxisOf(component.arrow)
      modifies this`isDragging, this`draggedComponent, this`dragDirection, this`dragStartLocation
      ensures Valid() && State() == DragStarted(old(State()), component, direction)
    {
      isDragging := true;
      draggedComponent := Some(component);
      dragDirection := direction;
      dragStartLocation := location;
    }

    method OnArrowClicked(touched: Component)
      requires Valid()
      modifies this
      ensures Valid() && State() == ArrowClicked(old(State()), touched) && materials == old(materials)
    {
      if touched == ArrowMesh(Right) {
        StartDragging(ArrowMesh(Right), ActorRightVector);
      } else if touched == ArrowMesh(Up) {
        StartDragging(ArrowMesh(Up), ActorUpVector);
      } else if touched == ArrowMesh(Forward) {
        StartDragging(ArrowMesh(Forward), ActorForwardVector);
      }

      if touched == ArrowMesh(Right) && Right in arrowColor {
        arrowColor := arrowColor[Right := HoveredColor(Right)];
        highlightedArrow := Some(ArrowMesh(Right));
      } else if touched == ArrowMesh(Up) && Up in arrowColor {
        arrowColor := arrowColor[Up := HoveredColor(Up)];
        highlightedArrow := Some(ArrowMesh(Up));
      } else if touched == ArrowMesh(Forward) && Forward in arrowColor {
        arrowColor := arrowColor[Forward := HoveredColor(Forward)];
        highlightedArrow := Some(ArrowMesh(Forward));
      }
    }

    method StopDragging(hasController: bool, cursorHit: Option<Component>)
      requires Valid()
      modifies this`isDragging, this`draggedComponent, this`highlightedArrow, this`arrowColor
      ensures Valid() && State() == DragStopped(old(State()), hasController, cursorHit)
    {
      isDragging := false;
      draggedComponent := None;
      if !hasController {
        return;
      }
      if cursorHit.Some? && cursorHit == highlightedArrow {
        return;
      }
      RestoreHighlighted();
    }

    /** OnArrowReleased ignores which component was released and ends the drag. */
    method OnArrowReleased(touched: Option<Component>, hasController: bool, cursorHit: Option<Component>)
      requires Valid()
      modifies this`isDragging, this`draggedComponent, this`highlightedArrow, this`arrowColor
      ensures Valid() && State() == DragStopped(old(State()), hasController, cursorHit)
    {
      StopDragging(hasController, cursorHit);
    }

    /**
      Tick: first the follow rule between the gizmo and the selected object,
      then, during a drag, the gizmo moves to `dragTarget`, the point the drag
      geometry computes from the mouse ray (None when the mouse ray is not
      available).
     */
    method Tick(selected: GameObject?, dragTarget: Option<Location>)
      requires Valid()
      modifies this`location, selected
      ensures Valid()
      ensures selected != null ==> selected.name == old(selected.name) && selected.parent == old(selected.parent)
      ensures selected != null ==>
                var p := Follow(old(isDragging), old(location), old(selected.location));
                selected.location == p.selected
                && location == (if isDragging && dragTarget.Some? then dragTarget.value else p.gizmo)
      ensures selected == null ==>
                location == (if isDragging && dragTarget.Some? then dragTarget.value else old(location))
    {
      if selected != null {
        if !isDragging {
          location := selected.location;
        } else {
          selected.location := location;
        }
      }
      if isDragging && draggedComponent.Some? && dragTarget.Some? {
        location := dragTarget.value;
      }
    }
  }
}
