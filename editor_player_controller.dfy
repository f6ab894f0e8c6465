/**
  The editor's player controller (AEditorPlayerController): the current
  selection, the copy buffer, the arrow under the mouse, and the two drags it
  runs, one of a gizmo arrow and one of a freshly spawned object.

  The engine queries the controller makes are inputs of its methods: whether
  the mouse position could be read and deprojected into a world ray
  (`mouseOk`), which gizmo arrows that ray hits (`hits`), what the level trace
  under the mouse hit, the object a spawn produced (null when it failed), and
  the names of the game objects in the level.
 */
module Controller {
  import opened Scene
  import opened Gizmo
  import opened Widgets
  import opened UniqueName

  /** The controller fields its event handlers update. */
  datatype ControllerState = ControllerState(
    selected: GameObject?,
    copied: GameObject?,
    hovered: Option<Component>,
    mouseDown: bool,
    dragging: bool,
    draggingObject: bool,
    draggedObject: GameObject?,
    canSpawn: bool)

  /** The controller together with its gizmo. */
  datatype Editor = Editor(ctl: ControllerState, gizmo: GizmoState)

  /** All three arrows of the gizmo are shown exactly when `shown`. */
  predicate GizmoShown(g: GizmoState, shown: bool) {
    g.forwardVisible == shown && g.upVisible == shown && g.rightVisible == shown
  }

  // ---------------------------------------------------------------------
  // Picking the hovered arrow

  /** The order in which PlayerTick traces the gizmo's arrows. */
  const TraceOrder: seq<Arrow> := [Forward, Up, Right]

  /** The first arrow of `order` whose line trace is hit, as the component hit. */
  function FirstHit(order: seq<Arrow>, hits: set<Arrow>): (r: Option<Component>)
    ensures r.Some? ==> r.value.ArrowMesh? && r.value.arrow in hits && r.value.arrow in order
    ensures r.None? ==> forall i :: 0 <= i < |order| ==> order[i] !in hits
    ensures forall i :: 0 <= i < |order| && order[i] in hits && (forall t :: 0 <= t < i ==> order[t] !in hits) ==>
              r == Some(ArrowMesh(order[i]))
    decreases |order|
  {
    if order == [] then None
    else if order[0] in hits then Some(ArrowMesh(order[0]))
    else FirstHit(order[1..], hits)
  }

  /** The forward arrow wins over the up arrow, which wins over the right arrow. */
  lemma TracePriority(hits: set<Arrow>)
    ensures FirstHit(TraceOrder, hits) == Some(ArrowMesh(Forward)) <==> Forward in hits
    ensures FirstHit(TraceOrder, hits) == Some(ArrowMesh(Up)) <==> Forward !in hits && Up in hits
    ensures FirstHit(TraceOrder, hits) == Some(ArrowMesh(Right)) <==> Forward !in hits && Up !in hits && Right in hits
    ensures FirstHit(TraceOrder, hits) == None <==> hits == {}
  {
    var r := FirstHit(TraceOrder, hits);
    assert TraceOrder[0] == Forward && TraceOrder[1] == Up && TraceOrder[2] == Right;
    assert TraceOrder[..1] == [Forward] && TraceOrder[..2] == [Forward, Up];
    if hits != {} {
      var a :| a in hits;
      assert a == TraceOrder[0] || a == TraceOrder[1] || a == TraceOrder[2] by {
        match a
        case Forward =>
        case Up =>
        case Right =>
      }
    }
  }

  // ---------------------------------------------------------------------
  // The tick

  /**
    The gizmo events of a change of the hovered arrow: cursor-end goes to the
    arrow left, then cursor-over to the arrow entered. While the gizmo drags,
    both are ignored; otherwise the entered arrow ends up highlighted and the
    arrow left, when it was highlighted, is back in its normal colour.
   */
  function HoverMoved(g: GizmoState, from: Option<Component>, to: Option<Component>): (r: GizmoState)
    requires from != to
    ensures g.dragging ==> r == g
    ensures !g.dragging && to.Some? && to.value.ArrowMesh? && to.value.arrow in g.arrowColor ==>
              r.highlighted == to && to.value.arrow in r.arrowColor && r.arrowColor[to.value.arrow] == HoveredColor(to.value.arrow)
    ensures !g.dragging && from.Some? && g.highlighted == from && from.value.ArrowMesh? && from.value.arrow in g.arrowColor ==>
              from.value.arrow in r.arrowColor && r.arrowColor[from.value.arrow] == NormalColor(from.value.arrow)
    ensures !g.dragging && to.None? && from.Some? && g.highlighted == from ==> r.highlighted.None?
    ensures r == g.(highlighted := r.highlighted, arrowColor := r.arrowColor)
    ensures Consistent(g) ==> Consistent(r)
  {
    var left := if from.Some? then CursorEnd(g, from.value) else g;
    if to.Some? then CursorOver(left, to.value) else left
  }

  /**
    PlayerTick after the object-drag gate: unless the mouse ray is missing,
    the hovered arrow becomes `hit`, and then a pressed mouse over an arrow
    starts an arrow drag, while a released mouse ends the drag in progress.
   */
  function Ticked(e: Editor, mouseOk: bool, hit: Option<Component>, cursorHit: Option<Component>): (r: Editor)
    ensures e.ctl.draggingObject && e.ctl.draggedObject != null ==> r == e
    ensures !mouseOk ==> r == e
    ensures !(e.ctl.draggingObject && e.ctl.draggedObject != null) && mouseOk ==>
              r.ctl == e.ctl.(hovered := hit, dragging := r.ctl.dragging)
    ensures !(e.ctl.draggingObject && e.ctl.draggedObject != null) && mouseOk && e.ctl.mouseDown ==>
              r.ctl.dragging == (e.ctl.dragging || hit.Some?)
    ensures !(e.ctl.draggingObject && e.ctl.draggedObject != null) && mouseOk && !e.ctl.mouseDown ==> !r.ctl.dragging
    ensures !(e.ctl.draggingObject && e.ctl.draggedObject != null) && mouseOk && e.ctl.mouseDown && !e.ctl.dragging
              && hit.Some? && hit.value.ArrowMesh? ==>
              r.gizmo.dragging && r.gizmo.dragged == hit && r.gizmo.dragDirection == AxisOf(hit.value.arrow)
    ensures !(e.ctl.draggingObject && e.ctl.draggedObject != null) && mouseOk && !e.ctl.mouseDown && e.ctl.dragging ==>
              !r.gizmo.dragging && r.gizmo.dragged.None?
    ensures GizmoShown(e.gizmo, true) ==> GizmoShown(r.gizmo, true)
    ensures GizmoShown(e.gizmo, false) ==> GizmoShown(r.gizmo, false)
    ensures Consistent(e.gizmo) ==> Consistent(r.gizmo)
  {
    if e.ctl.draggingObject && e.ctl.draggedObject != null then e
    else if !mouseOk then e
    else
      var g := if e.ctl.hovered != hit then HoverMoved(e.gizmo, e.ctl.hovered, hit) else e.gizmo;
      ArrowDragged(Editor(e.ctl.(hovered := hit), g), hit, cursorHit)
  }

  /** A tick past the gate with a mouse ray is the hover rule followed by the drag rule. */
  lemma TickedSteps(e: Editor, hit: Option<Component>, cursorHit: Option<Component>)
    requires !(e.ctl.draggingObject && e.ctl.draggedObject != null)
    ensures Ticked(e, true, hit, cursorHit) ==
              ArrowDragged(Editor(e.ctl.(hovered := hit), if e.ctl.hovered != hit then HoverMoved(e.gizmo, e.ctl.hovered, hit) else e.gizmo),
                           hit, cursorHit)
  {
  }

  /**
    The drag rule of a tick: a pressed mouse over an arrow clicks it and
    starts an arrow drag, and a released mouse ends the drag in progress.
    The gizmo's release asks for the controller's hit under the cursor; the
    first player controller is the editor controller itself.
   */
  function ArrowDragged(e: Editor, hit: Option<Component>, cursorHit: Option<Component>): (r: Editor)
    ensures r.ctl == e.ctl.(dragging := r.ctl.dragging)
    ensures e.ctl.mouseDown ==> r.ctl.dragging == (e.ctl.dragging || hit.Some?)
    ensures !e.ctl.mouseDown ==> !r.ctl.dragging
    ensures e.ctl.mouseDown && !e.ctl.dragging && hit.Some? ==> r.gizmo == ArrowClicked(e.gizmo, hit.value)
    ensures !e.ctl.mouseDown && e.ctl.dragging ==> r.gizmo == DragStopped(e.gizmo, true, cursorHit)
    ensures (e.ctl.mouseDown && (e.ctl.dragging || hit.None?)) || (!e.ctl.mouseDown && !e.ctl.dragging) ==> r.gizmo == e.gizmo
  {
    if e.ctl.mouseDown then
      if hit.Some? && !e.ctl.dragging then Editor(e.ctl.(dragging := true), ArrowClicked(e.gizmo, hit.value))
      else e
    else if e.ctl.dragging then Editor(e.ctl.(dragging := false), DragStopped(e.gizmo, true, cursorHit))
    else e
  }

  /**
    Pressing on an arrow starts its drag on the next tick, and after the
    button is released the following tick ends it.
   */
  lemma PressDragRelease(e: Editor, hits: set<Arrow>, cursorHit: Option<Component>,
                         laterHits: set<Arrow>, laterCursorHit: Option<Component>)
    requires !e.ctl.draggingObject && e.ctl.mouseDown && !e.ctl.dragging && Consistent(e.gizmo)
    requires FirstHit(TraceOrder, hits).Some?
    ensures var hit := FirstHit(TraceOrder, hits);
            var pressed := Ticked(e, true, hit, cursorHit);
            var up := Editor(pressed.ctl.(mouseDown := false, draggingObject := false, draggedObject := null), pressed.gizmo);
            var released := Ticked(up, true, FirstHit(TraceOrder, laterHits), laterCursorHit);
            && pressed.ctl.dragging && pressed.gizmo.dragging && pressed.gizmo.dragged == hit
            && !released.ctl.dragging && !released.gizmo.dragging && Consistent(released.gizmo)
  {
  }

  // ---------------------------------------------------------------------
  // The left mouse button

  /** What the level trace under the mouse hit. */
  datatype TraceHit = Miss | HitActor(actor: Actor)

  /** The kinds of actor a trace can hit. */
  datatype Actor = GameObjectActor(obj: GameObject) | GizmoActor | OtherActor

  /** A press spawns a new object: spawning is armed and no object drag is running. */
  predicate SpawnMode(c: ControllerState) {
    !c.draggingObject && c.canSpawn
  }

  /**
    The selection a left press makes, None when it makes none. In spawn mode
    a spawned object is selected; otherwise a hit game object is selected and
    a miss clears the selection. Hitting the gizmo or any other actor, or
    having no mouse ray, selects nothing.
   */
  function PressSelection(c: ControllerState, mouseOk: bool, spawned: GameObject?, hit: TraceHit): (call: Option<GameObject?>)
    ensures !mouseOk ==> call.None?
    ensures mouseOk && SpawnMode(c) ==> call == (if spawned != null then Some(spawned) else None)
    ensures mouseOk && !SpawnMode(c) && hit.Miss? ==> call == Some(null)
    ensures mouseOk && !SpawnMode(c) && hit.HitActor? && hit.actor.GameObjectActor? ==> call == Some(hit.actor.obj)
    ensures hit.HitActor? && !hit.actor.GameObjectActor? && !SpawnMode(c) ==> call.None?
  {
    if !mouseOk then None
    else if SpawnMode(c) then (if spawned != null then Some(spawned) else None)
    else match hit
      case Miss => Some(null)
      // The source also checks that the hit actor is not the gizmo; a game object never is.
      case HitActor(a) => if a.GameObjectActor? && a != GizmoActor then Some(a.obj) else None
  }

  /** OnLeftMouseDown: the button is down, a spawn starts an object drag, and the press's selection is made. */
  function Pressed(c: ControllerState, mouseOk: bool, spawned: GameObject?, hit: TraceHit): (r: ControllerState)
    ensures r.mouseDown
    ensures PressSelection(c, mouseOk, spawned, hit).Some? ==> r.selected == PressSelection(c, mouseOk, spawned, hit).value
    ensures PressSelection(c, mouseOk, spawned, hit).None? ==> r.selected == c.selected
    ensures SpawnMode(c) && mouseOk ==> r.draggedObject == spawned && r.draggingObject == (spawned != null)
    ensures !(SpawnMode(c) && mouseOk) ==> r.draggedObject == c.draggedObject && r.draggingObject == c.draggingObject
    ensures r == c.(mouseDown := true, selected := r.selected, draggedObject := r.draggedObject, draggingObject := r.draggingObject)
  {
    var call := PressSelection(c, mouseOk, spawned, hit);
    var down := c.(mouseDown := true, selected := if call.Some? then call.value else c.selected);
    if SpawnMode(c) && mouseOk then down.(draggedObject := spawned, draggingObject := spawned != null)
    else down
  }

  /** A press in spawn mode, case by case. */
  lemma PressedInSpawnMode(c: ControllerState, mouseOk: bool, spawned: GameObject?, hit: TraceHit)
    requires SpawnMode(c)
    ensures PressSelection(c, mouseOk, spawned, hit) == if mouseOk && spawned != null then Some(spawned) else None
    ensures Pressed(c, mouseOk, spawned, hit) ==
              if !mouseOk then c.(mouseDown := true)
              else if spawned == null then c.(mouseDown := true, draggedObject := null)
              else c.(mouseDown := true, selected := spawned, draggedObject := spawned, draggingObject := true)
  {
  }

  /** A press outside spawn mode, case by case. */
  lemma PressedOutsideSpawnMode(c: ControllerState, mouseOk: bool, spawned: GameObject?, hit: TraceHit)
    requires !SpawnMode(c)
    ensures PressSelection(c, mouseOk, spawned, hit) ==
              if !mouseOk then None
              else if hit.Miss? then Some(null)
              else if hit.actor.GameObjectActor? then Some(hit.actor.obj)
              else None
    ensures Pressed(c, mouseOk, spawned, hit) ==
              c.(mouseDown := true,
                 selected := if PressSelection(c, mouseOk, spawned, hit).Some? then PressSelection(c, mouseOk, spawned, hit).value else c.selected)
  {
  }

  /** A spawned object is selected and follows the mouse until the button is released. */
  lemma SpawnDragRelease(c: ControllerState, spawned: GameObject)
    requires SpawnMode(c)
    ensures var down := Pressed(c, true, spawned, Miss);
            var up := down.(mouseDown := false, draggingObject := false, draggedObject := null);
            && down.selected == spawned && down.draggingObject && down.draggedObject == spawned
            && up.selected == spawned && !up.draggingObject
  {
  }

  // ---------------------------------------------------------------------
  // The controller

  class EditorPlayerController {
    var currentSelected: GameObject?
    var copiedObject: GameObject?
    var currentHoveredComponent: Option<Component>
    var isMouseDown: bool
    var isDragging: bool
    var isDraggingObject: bool
    var draggedObject: GameObject?
    var canSpawn: bool
    /** The gizmo spawned at BeginPlay; null when the spawn failed. */
    const arrows: MoveArrows?
    /** The outliner created at BeginPlay; null when no widget class is set. */
    const editorUI: EditorUI?

    /** The gizmo, as a frame: empty when there is none. */
    ghost function Gizmo(): set<MoveArrows> {
      if arrows != null then {arrows} else {}
    }

    /** The outliner, as a frame. */
    ghost function UI(): set<EditorUI> {
      if editorUI != null then {editorUI} else {}
    }

    /** The object being dragged, as a frame. */
    ghost function Dragged(): set<GameObject>
      reads this
    {
      if draggedObject != null then {draggedObject} else {}
    }

    function State(): ControllerState
      reads this
    {
      ControllerState(currentSelected, copiedObject, currentHoveredComponent, isMouseDown,
                      isDragging, isDraggingObject, draggedObject, canSpawn)
    }

    /**
      The gizmo is consistent and shown exactly when something is selected;
      only the gizmo's arrows are ever hovered or dragged; an object drag
      always has its object; and the outliner's rows can be built.
     */
    ghost predicate Valid()
      reads this, arrows, editorUI
    {
      && (arrows != null ==> arrows.Valid() && GizmoShown(arrows.State(), currentSelected != null))
      && (arrows == null ==> currentHoveredComponent.None? && !isDragging)
      && (currentHoveredComponent.Some? ==> currentHoveredComponent.value.ArrowMesh?)
      && (isDraggingObject ==> draggedObject != null)
      && (editorUI != null ==>
            editorUI.Valid() && (editorUI.rowClass.Some? && editorUI.rowClass.value.hasLabel ==> editorUI.rowClass.value.hasEditBox))
    }

    /**
      The constructor followed by BeginPlay: nothing copied, hovered or
      dragged, and a new game object, placed at the pawn, selected. Spawning
      is not armed: the engine zero-fills a new controller and the
      constructor leaves that flag alone. BeginPlay adds the outliner to the
      viewport without a check, so it must exist; the gizmo may be missing.
      Adding the outliner runs its NativeConstruct, which refreshes it, and
      spawning the new object refreshes it again from the object's own hooks.
      Each refresh rebuilds every row, so the last one decides: it sees the
      level's objects `found`, the new one among them, while the selection
      is still null.
     */
    constructor (arrows: MoveArrows?, editorUI: EditorUI?, spawned: GameObject, pawnLocation: Location, found: seq<GameObject>)
      requires arrows != null ==> arrows.Valid() && GizmoShown(arrows.State(), true)
      requires editorUI != null
      requires editorUI.Valid() && (editorUI.rowClass.Some? && editorUI.rowClass.value.hasLabel ==> editorUI.rowClass.value.hasEditBox)
      modifies spawned, editorUI`children
      ensures this.arrows == arrows && this.editorUI == editorUI
      ensures State() == ControllerState(spawned, null, None, false, false, false, null, false)
      ensures spawned.location == pawnLocation && spawned.name == old(spawned.name) && spawned.parent == old(spawned.parent)
      ensures Valid()
      ensures editorUI.hasObjectsBox && editorUI.rowClass.Some? ==>
                Shows(editorUI.children, Outline.Rows(Entries(found)), Some(null), editorUI, editorUI.rowClass.value, NamesOf(found))
      ensures editorUI.hasObjectsBox && editorUI.rowClass.None? ==> editorUI.children == []
      ensures !editorUI.hasObjectsBox ==> editorUI.children == old(editorUI.children)
    {
      this.arrows := arrows;
      this.editorUI := editorUI;
      currentHoveredComponent := None;
      isDragging := false;
      isMouseDown := false;
      isDraggingObject := false;
      draggedObject := null;
      copiedObject := null;
      canSpawn := false;
      new;
      // The outliner does not show locations, so placing the new object
      // first does not change what the refresh shows.
      spawned.location := pawnLocation;
      editorUI.Refresh(found, Some(null));
      currentSelected := spawned;
    }

    /** OnGameObjectsRefreshed: the outliner is rebuilt from the level's game objects. */
    method OnGameObjectsRefreshed(found: seq<GameObject>)
      requires Valid()
      modifies UI()`children
      ensures Valid()
      ensures editorUI != null && editorUI.hasObjectsBox && editorUI.rowClass.Some? ==>
                Shows(editorUI.children, Outline.Rows(Entries(found)), Some(currentSelected), editorUI, editorUI.rowClass.value, NamesOf(found))
      ensures editorUI != null && editorUI.hasObjectsBox && editorUI.rowClass.None? ==> editorUI.children == []
      ensures editorUI != null && !editorUI.hasObjectsBox ==> editorUI.children == old(editorUI.children)
    {
      if editorUI != null {
        editorUI.Refresh(found, Some(currentSelected));
      }
    }

    /**
      SetSelected: the gizmo is shown exactly when `g` is an object,
      `g` becomes the selection, and every outliner row recomputes its
      border against it.
     */
    method SetSelected(g: GameObject?)
      requires Valid() && arrows != null
      modifies this`currentSelected, arrows`forwardVisible, arrows`upVisible, arrows`rightVisible
      modifies if editorUI != null then WidgetsOf(editorUI.children) else {}
      ensures Valid()
      ensures State() == old(State()).(selected := g)
      ensures arrows.State() == AllVisible(old(arrows.State()), g != null)
      ensures editorUI != null ==>
                forall i :: 0 <= i < |editorUI.children| ==>
                  var w := editorUI.children[i].widget;
                  w.State() == Recolored(old(w.State()), w.layout, Some(g), w.gameObject) && w.gameObject == old(w.gameObject)
    {
      arrows.SetVisibility(g != null);
      currentSelected := g;
      if editorUI != null {
        editorUI.OnSelectedObject(Some(g));
      }
    }

    /**
      DragObject: with an object drag running, the object moves to the
      point under the mouse, `target` (None when the mouse ray is missing),
      and the tick is taken.
     */
    method DragObject(target: Option<Location>) returns (handled: bool)
      requires Valid()
      modifies Dragged()`location
      ensures handled == (isDraggingObject && draggedObject != null)
      ensures handled && target.Some? ==> draggedObject.location == target.value
      ensures !(handled && target.Some?) && draggedObject != null ==> draggedObject.location == old(draggedObject.location)
    {
      if isDraggingObject && draggedObject != null {
        if target.Some? {
          draggedObject.location := target.value;
        }
        return true;
      }
      return false;
    }

    /** The trace of the gizmo's arrows in TraceOrder, stopping at the first hit. */
    method TraceArrows(hits: set<Arrow>) returns (hit: Option<Component>)
      ensures hit == FirstHit(TraceOrder, hits)
    {
      hit := None;
      var i := 0;
      while i < |TraceOrder|
        invariant 0 <= i <= |TraceOrder|
        invariant FirstHit(TraceOrder[i..], hits) == FirstHit(TraceOrder, hits)
      {
        if TraceOrder[i] in hits {
          hit := Some(ArrowMesh(TraceOrder[i]));
          break;
        }
        assert TraceOrder[i..][1..] == TraceOrder[i + 1..];
        i := i + 1;
      }
    }

    /**
      PlayerTick: a running object drag takes the whole tick; otherwise the
      hover and arrow-drag rules of Ticked run on the controller and its
      gizmo. The gizmo's release asks for the controller's hit under the
      cursor, `cursorHit`.
     */
    method PlayerTick(target: Option<Location>, mouseOk: bool, hits: set<Arrow>, cursorHit: Option<Component>)
      requires Valid()
      modifies this`currentHoveredComponent, this`isDragging, Gizmo(), Dragged()`location
      ensures Valid()
      ensures arrows != null ==>
                Editor(State(), arrows.State()) == Ticked(Editor(old(State()), old(arrows.State())), mouseOk, FirstHit(TraceOrder, hits), cursorHit)
                && arrows.materials == old(arrows.materials)
      ensures arrows == null ==> State() == old(State())
      ensures old(isDraggingObject) && target.Some? ==> draggedObject.location == target.value
      ensures !(old(isDraggingObject) && target.Some?) && draggedObject != null ==> draggedObject.location == old(draggedObject.location)
    {
      var handled := DragObject(target);
      if handled {
        return;
      }
      PickAndDragArrows(mouseOk, hits, cursorHit);
    }

    /** PlayerTick without an object drag running: the hover and arrow-drag rules. */
    method PickAndDragArrows(mouseOk: bool, hits: set<Arrow>, cursorHit: Option<Component>)
      requires Valid() && !(isDraggingObject && draggedObject != null)
      modifies this`currentHoveredComponent, this`isDragging, Gizmo()
      ensures Valid()
      ensures arrows != null ==>
                Editor(State(), arrows.State()) == Ticked(Editor(old(State()), old(arrows.State())), mouseOk, FirstHit(TraceOrder, hits), cursorHit)
                && arrows.materials == old(arrows.materials)
      ensures arrows == null ==> State() == old(State())
    {
      if !mouseOk {
        return;
      }
      var hit: Option<Component> := None;
      if arrows != null {
        hit := TraceArrows(hits);
        TickedSteps(Editor(State(), arrows.State()), hit, cursorHit);
      }
      UpdateHover(hit);
      UpdateArrowDrag(hit, cursorHit);
    }

    /** The hover part of PlayerTick: the gizmo hears of a change of the hovered arrow. */
    method UpdateHover(hit: Option<Component>)
      requires Valid()
      requires hit.Some? ==> arrows != null && hit.value.ArrowMesh?
      modifies this`currentHoveredComponent, Gizmo()`highlightedArrow, Gizmo()`arrowColor
      ensures Valid()
      ensures State() == old(State()).(hovered := hit)
      ensures arrows != null ==>
                arrows.State() == if old(currentHoveredComponent) != hit then HoverMoved(old(arrows.State()), old(currentHoveredComponent), hit)
                                  else old(arrows.State())
    {
      if currentHoveredComponent != hit {
        if currentHoveredComponent.Some? {
          arrows.OnCursorEnd(currentHoveredComponent.value);
        }
        if hit.Some? {
          arrows.OnCursorOver(hit.value);
        }
        currentHoveredComponent := hit;
      }
    }

    /** The arrow-drag part of PlayerTick, once the hovered arrow is `hit`. */
    method UpdateArrowDrag(hit: Option<Component>, cursorHit: Option<Component>)
      requires Valid() && currentHoveredComponent == hit
      modifies this`isDragging, Gizmo()
      ensures Valid()
      ensures arrows != null ==>
                Editor(State(), arrows.State()) == ArrowDragged(Editor(old(State()), old(arrows.State())), hit, cursorHit)
                && arrows.materials == old(arrows.materials)
      ensures arrows == null ==> State() == old(State())
    {
      if isMouseDown {
        if hit.Some? && !isDragging {
          arrows.OnArrowClicked(hit.value);
          isDragging := true;
        }
      } else if isDragging {
        // The first player controller is this one, so the gizmo has a controller to ask.
        arrows.OnArrowReleased(currentHoveredComponent, true, cursorHit);
        isDragging := false;
      }
    }

    /** CopyObject: the selection, when there is one, becomes the copied object. */
    method CopyObject()
      requires Valid()
      modifies this`copiedObject
      ensures Valid()
      ensures old(currentSelected) != null ==> State() == old(State()).(copied := old(currentSelected))
      ensures old(currentSelected) == null ==> State() == old(State())
    {
      if currentSelected != null {
        copiedObject := currentSelected;
      }
    }

    /**
      GenerateUniqueName: the candidate for the least suffix not in use. It
      is in use by no existing object, ignoring case, and is never the base
      name itself.
     */
    method GenerateUniqueName(base: string, existing: seq<string>) returns (name: string)
      ensures !InUse(name, existing) && name !in existing && name != base
      ensures name == Suffixed(base, LeastFreeSuffix(base, existing))
    {
      var suffix: nat := 0;
      name := base;
      var nameExists := true;
      while nameExists
        invariant nameExists ==> Taken(base, existing, suffix)
        invariant !nameExists ==>
                    0 < suffix && name == Suffixed(base, suffix - 1) && !InUse(name, existing) && Taken(base, existing, suffix - 1)
        decreases if nameExists then |existing| + 1 - suffix else 0
      {
        Pigeonhole(base, existing, suffix);
        nameExists := false;
        name := Suffixed(base, suffix);
        suffix := suffix + 1;
        var i := 0;
        while i < |existing|
          invariant 0 <= i <= |existing|
          invariant !nameExists ==> forall t :: 0 <= t < i ==> !SameName(existing[t], name)
          invariant nameExists ==> InUse(name, existing)
        {
          if SameName(existing[i], name) {
            nameExists := true;
            break;
          }
          i := i + 1;
        }
        if nameExists {
          Pigeonhole(base, existing, suffix);
        }
      }
      LeastFreeUnique(base, existing, suffix - 1);
      SuffixedLonger(base, suffix - 1);
    }

    /**
      PasteObject: with an object copied, a copy is spawned under the
      least free suffixed name of the copied object, `requested`, and a
      successful spawn selects the copy. With nothing copied nothing changes.
     */
    method PasteObject(existing: seq<string>, spawned: GameObject?) returns (requested: Option<string>)
      requires Valid()
      requires copiedObject != null && spawned != null ==> arrows != null
      modifies this`currentSelected, Gizmo()`forwardVisible, Gizmo()`upVisible, Gizmo()`rightVisible
      modifies if editorUI != null then WidgetsOf(editorUI.children) else {}
      ensures Valid()
      ensures old(copiedObject) == null ==> requested.None?
      ensures old(copiedObject) != null ==>
                requested == Some(Suffixed(copiedObject.name, LeastFreeSuffix(copiedObject.name, existing)))
                && !InUse(requested.value, existing)
      ensures old(copiedObject) != null && spawned != null ==>
                State() == old(State()).(selected := spawned) && arrows.State() == AllVisible(old(arrows.State()), true)
      ensures old(copiedObject) == null || spawned == null ==>
                State() == old(State()) && (arrows != null ==> arrows.State() == old(arrows.State()))
    {
      requested := None;
      if copiedObject != null {
        var newName := GenerateUniqueName(copiedObject.name, existing);
        requested := Some(newName);
        if spawned != null {
          SetSelected(spawned);
        }
      }
    }

    /** OnCopyPressed: copies only while a Control key is held. */
    method OnCopyPressed(leftControl: bool, rightControl: bool)
      requires Valid()
      modifies this`copiedObject
      ensures Valid()
      ensures (leftControl || rightControl) && old(currentSelected) != null ==> State() == old(State()).(copied := old(currentSelected))
      ensures !(leftControl || rightControl) || old(currentSelected) == null ==> State() == old(State())
    {
      if leftControl || rightControl {
        CopyObject();
      }
    }

    /** OnPastePressed: pastes only while a Control key is held. */
    method OnPastePressed(leftControl: bool, rightControl: bool, existing: seq<string>, spawned: GameObject?)
      returns (requested: Option<string>)
      requires Valid()
      requires copiedObject != null && spawned != null ==> arrows != null
      modifies this`currentSelected, Gizmo()`forwardVisible, Gizmo()`upVisible, Gizmo()`rightVisible
      modifies if editorUI != null then WidgetsOf(editorUI.children) else {}
      ensures Valid()
      ensures !(leftControl || rightControl) ==>
                requested.None? && State() == old(State()) && (arrows != null ==> arrows.State() == old(arrows.State()))
      ensures (leftControl || rightControl) && old(copiedObject) != null ==>
                requested == Some(Suffixed(copiedObject.name, LeastFreeSuffix(copiedObject.name, existing)))
      ensures (leftControl || rightControl) && old(copiedObject) != null && spawned != null ==>
                State() == old(State()).(selected := spawned)
    {
      requested := None;
      if leftControl || rightControl {
        requested := PasteObject(existing, spawned);
      }
    }

    /**
      OnLeftMouseDown, for the mouse ray `mouseOk`, the object a spawn
      produced and what the level trace hit.
     */
    method OnLeftMouseDown(mouseOk: bool, spawned: GameObject?, hit: TraceHit)
      requires Valid()
      requires PressSelection(State(), mouseOk, spawned, hit).Some? ==> arrows != null
      modifies this`isMouseDown, this`currentSelected, this`draggedObject, this`isDraggingObject
      modifies Gizmo()`forwardVisible, Gizmo()`upVisible, Gizmo()`rightVisible
      modifies if editorUI != null then WidgetsOf(editorUI.children) else {}
      ensures Valid()
      ensures State() == Pressed(old(State()), mouseOk, spawned, hit)
      ensures var call := PressSelection(old(State()), mouseOk, spawned, hit);
              call.Some? ==> arrows.State() == AllVisible(old(arrows.State()), call.value != null)
      ensures PressSelection(old(State()), mouseOk, spawned, hit).None? && arrows != null ==> arrows.State() == old(arrows.State())
    {
      ghost var before := State();
      isMouseDown := true;
      if !isDraggingObject && canSpawn {
        SpawnPress(before, mouseOk, spawned, hit);
        return;
      }
      PickPress(before, mouseOk, spawned, hit);
    }

    /** The spawn-mode half of OnLeftMouseDown, once the button is marked down. */
    method SpawnPress(ghost before: ControllerState, mouseOk: bool, spawned: GameObject?, hit: TraceHit)
      requires Valid() && SpawnMode(before) && State() == before.(mouseDown := true)
      requires PressSelection(before, mouseOk, spawned, hit).Some? ==> arrows != null
      modifies this`currentSelected, this`draggedObject, this`isDraggingObject
      modifies Gizmo()`forwardVisible, Gizmo()`upVisible, Gizmo()`rightVisible
      modifies if editorUI != null then WidgetsOf(editorUI.children) else {}
      ensures Valid()
      ensures State() == Pressed(before, mouseOk, spawned, hit)
      ensures var call := PressSelection(before, mouseOk, spawned, hit);
              call.Some? ==> arrows.State() == AllVisible(old(arrows.State()), call.value != null)
      ensures PressSelection(before, mouseOk, spawned, hit).None? && arrows != null ==> arrows.State() == old(arrows.State())
    {
      PressedInSpawnMode(before, mouseOk, spawned, hit);
      SpawnAtMouse(mouseOk, spawned);
    }

    /** The picking half of OnLeftMouseDown, once the button is marked down. */
    method PickPress(ghost before: ControllerState, mouseOk: bool, spawned: GameObject?, hit: TraceHit)
      requires Valid() && !SpawnMode(before) && State() == before.(mouseDown := true)
      requires PressSelection(before, mouseOk, spawned, hit).Some? ==> arrows != null
      modifies this`currentSelected
      modifies Gizmo()`forwardVisible, Gizmo()`upVisible, Gizmo()`rightVisible
      modifies if editorUI != null then WidgetsOf(editorUI.children) else {}
      ensures Valid()
      ensures State() == Pressed(before, mouseOk, spawned, hit)
      ensures var call := PressSelection(before, mouseOk, spawned, hit);
              call.Some? ==> arrows.State() == AllVisible(old(arrows.State()), call.value != null)
      ensures PressSelection(before, mouseOk, spawned, hit).None? && arrows != null ==> arrows.State() == old(arrows.State())
    {
      PressedOutsideSpawnMode(before, mouseOk, spawned, hit);
      PickAtMouse(mouseOk, hit);
    }

    /** A press in spawn mode: a spawned object is selected and starts an object drag. */
    method SpawnAtMouse(mouseOk: bool, spawned: GameObject?)
      requires Valid() && !isDraggingObject
      requires mouseOk && spawned != null ==> arrows != null
      modifies this`currentSelected, this`draggedObject, this`isDraggingObject
      modifies Gizmo()`forwardVisible, Gizmo()`upVisible, Gizmo()`rightVisible
      modifies if editorUI != null then WidgetsOf(editorUI.children) else {}
      ensures Valid()
      ensures !mouseOk ==> State() == old(State()) && (arrows != null ==> arrows.State() == old(arrows.State()))
      ensures mouseOk && spawned == null ==>
                State() == old(State()).(draggedObject := null) && (arrows != null ==> arrows.State() == old(arrows.State()))
      ensures mouseOk && spawned != null ==>
                State() == old(State()).(selected := spawned, draggedObject := spawned, draggingObject := true)
                && arrows.State() == AllVisible(old(arrows.State()), true)
    {
      if mouseOk {
        draggedObject := spawned;
        if draggedObject != null {
          SetSelected(draggedObject);
          isDraggingObject := true;
        }
      }
    }

    /** A press outside spawn mode: a hit game object is selected and a miss clears the selection. */
    method PickAtMouse(mouseOk: bool, hit: TraceHit)
      requires Valid()
      requires mouseOk && !(hit.HitActor? && !hit.actor.GameObjectActor?) ==> arrows != null
      modifies this`currentSelected
      modifies Gizmo()`forwardVisible, Gizmo()`upVisible, Gizmo()`rightVisible
      modifies if editorUI != null then WidgetsOf(editorUI.children) else {}
      ensures Valid()
      ensures !mouseOk || (hit.HitActor? && !hit.actor.GameObjectActor?) ==>
                State() == old(State()) && (arrows != null ==> arrows.State() == old(arrows.State()))
      ensures mouseOk && hit.Miss? ==> State() == old(State()).(selected := null) && arrows.State() == AllVisible(old(arrows.State()), false)
      ensures mouseOk && hit.HitActor? && hit.actor.GameObjectActor? ==>
                State() == old(State()).(selected := hit.actor.obj) && arrows.State() == AllVisible(old(arrows.State()), true)
    {
      if mouseOk {
        match hit
        case HitActor(a) =>
          // The source also checks that the hit actor is not the gizmo; a game object never is.
          if a.GameObjectActor? && a != GizmoActor {
            SetSelected(a.obj);
          }
        case Miss =>
          SetSelected(null);
      }
    }

    /** OnLeftMouseUp: the button is up and any object drag ends. */
    method OnLeftMouseUp()
      requires Valid()
      modifies this`isMouseDown, this`isDraggingObject, this`draggedObject
      ensures Valid()
      ensures State() == old(State()).(mouseDown := false, draggingObject := false, draggedObject := null)
    {
      isMouseDown := false;
      isDraggingObject := false;
      draggedObject := null;
    }

    /** DragginSpawn: pressing C arms spawning. */
    method DragginSpawn()
      requires Valid()
      modifies this`canSpawn
      ensures Valid() && State() == old(State()).(canSpawn := true)
    {
      canSpawn := true;
    }

    /** DragginDespawn: releasing C disarms spawning. */
    method DragginDespawn()
      requires Valid()
      modifies this`canSpawn
      ensures Valid() && State() == old(State()).(canSpawn := false)
    {
      canSpawn := false;
    }
  }

  /**
    A row's button (UTruGameObjectWidget::OnButtonClicked): when the first
    player controller is an editor controller, the row's object becomes its
    selection; then the row recomputes its border, so that it shows as
    selected exactly when an editor controller selected it.
   */
  method RowButtonClicked(w: TruGameObjectWidget, controller: EditorPlayerController?)
    requires controller != null ==> controller.Valid() && controller.arrows != null
    modifies w`border
    modifies if controller != null then {controller} else {}
    modifies if controller != null then {controller.arrows} else {}
    modifies if controller != null && controller.editorUI != null then WidgetsOf(controller.editorUI.children) else {}
    ensures controller != null ==>
              controller.Valid() && controller.State() == old(controller.State()).(selected := w.gameObject)
    ensures w.gameObject == old(w.gameObject)
    ensures w.State() == Recolored(old(w.State()), w.layout, if controller != null then Some(w.gameObject) else None, w.gameObject)
  {
    var selection: Option<GameObject?> := None;
    if controller != null {
      selection := Some(w.gameObject);
      ghost var before := w.State();
      SelectRowObject(w, controller);
      RecoloredIdempotent(before, w.layout, selection, w.gameObject);
    }
    w.UpdateBorderColor(selection);
  }

  /**
    The controller part of a row's button click: the row's object is
    selected; the row itself has either kept its state or already been
    recoloured, as a row of the outliner, against the new selection.
   */
  method SelectRowObject(w: TruGameObjectWidget, controller: EditorPlayerController)
    requires controller.Valid() && controller.arrows != null
    modifies controller`currentSelected, controller.arrows`forwardVisible, controller.arrows`upVisible, controller.arrows`rightVisible
    modifies if controller.editorUI != null then WidgetsOf(controller.editorUI.children) else {}
    ensures controller.Valid() && controller.State() == old(controller.State()).(selected := w.gameObject)
    ensures w.gameObject == old(w.gameObject)
    ensures w.State() == old(w.State()) || w.State() == Recolored(old(w.State()), w.layout, Some(w.gameObject), w.gameObject)
  {
    controller.SetSelected(w.gameObject);
  }
}
