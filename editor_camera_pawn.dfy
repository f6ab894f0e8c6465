/**
  The editor's camera pawn (AEditorCameraPawn). One flag, camera control,
  decides whether movement and look input reach the camera; switching it also
  switches the possessing player controller between a visible cursor with
  game-and-UI input and a hidden cursor with game-only input.

  The movement, turn and look handlers do not move anything themselves: they
  hand a request to the engine's movement component, and the model returns
  that request. The scaling of turn and look input by the rotation speed and
  the frame time is not modelled.
 */
module CameraPawn {
  import opened Scene
  import opened Gizmo

  /**
    The input modes the pawn sets: game input only, or game and UI input,
    where the flag says whether the cursor hides while the mouse is captured.
    Every game-and-UI mode the pawn sets leaves the mouse unlocked.
   */
  datatype InputMode = GameOnly | GameAndUI(hideCursorDuringCapture: bool)

  /** A player controller's cursor visibility and input mode. */
  datatype Cursor = Cursor(shown: bool, mode: InputMode)

  /** Camera control, with the cursor of the possessing player controller when there is one. */
  datatype CameraView = CameraView(enabled: bool, cursor: Option<Cursor>)

  /** The cursor shows exactly when camera control is off, and input is game-only exactly when it is on. */
  predicate Coupled(v: CameraView) {
    v.cursor.Some? ==> v.cursor.value.shown == !v.enabled && (v.cursor.value.mode == GameOnly <==> v.enabled)
  }

  /**
    BeginPlay: camera control is off; an editor player controller gets a
    visible cursor and game-and-UI input that keeps the cursor during capture.
   */
  function BegunPlay(v: CameraView, editorController: bool): (r: CameraView)
    ensures !r.enabled
    ensures r.cursor.Some? == v.cursor.Some?
    ensures v.cursor.Some? && editorController ==> r.cursor == Some(Cursor(true, GameAndUI(false))) && Coupled(r)
    ensures v.cursor.Some? && !editorController ==> r.cursor == v.cursor
  {
    if v.cursor.Some? && editorController then CameraView(false, Some(Cursor(true, GameAndUI(false))))
    else v.(enabled := false)
  }

  /** OnRightMouseButtonPressed: camera control on, cursor hidden, game-only input. */
  function RightPressed(v: CameraView): (r: CameraView)
    ensures r.enabled && Coupled(r)
    ensures r.cursor.Some? == v.cursor.Some?
    ensures v.cursor.Some? ==> r.cursor == Some(Cursor(false, GameOnly))
  {
    CameraView(true, if v.cursor.Some? then Some(Cursor(false, GameOnly)) else None)
  }

  /** OnRightMouseButtonReleased: camera control off, cursor shown, game-and-UI input keeping the cursor. */
  function RightReleased(v: CameraView): (r: CameraView)
    ensures !r.enabled && Coupled(r)
    ensures r.cursor.Some? == v.cursor.Some?
    ensures v.cursor.Some? ==> r.cursor == Some(Cursor(true, GameAndUI(false)))
  {
    CameraView(false, if v.cursor.Some? then Some(Cursor(true, GameAndUI(false))) else None)
  }

  /**
    ToggleCameraControl: without a player controller nothing changes;
    otherwise the flag flips and the cursor follows it. The game-and-UI mode
    set here keeps the engine's default of hiding the cursor during capture.
   */
  function Toggled(v: CameraView): (r: CameraView)
    ensures v.cursor.None? ==> r == v
    ensures v.cursor.Some? ==> r.enabled == !v.enabled && Coupled(r) && r.cursor.Some?
    ensures v.cursor.Some? && !r.enabled ==> r.cursor == Some(Cursor(true, GameAndUI(true)))
  {
    if v.cursor.None? then v
    else if !v.enabled then CameraView(true, Some(Cursor(false, GameOnly)))
    else CameraView(false, Some(Cursor(true, GameAndUI(true))))
  }

  /** ExitCameraControl: toggles only when camera control is on. */
  function Exited(v: CameraView): (r: CameraView)
    ensures !v.enabled ==> r == v
    ensures v.enabled && v.cursor.Some? ==> !r.enabled && Coupled(r) && r.cursor.Some? && r.cursor.value.shown
    ensures v.cursor.None? ==> r == v
  {
    if v.enabled then Toggled(v) else v
  }

  /** Exiting camera control twice is exiting it once. */
  lemma ExitIdempotent(v: CameraView)
    ensures Exited(Exited(v)) == Exited(v)
  {
  }

  /** Toggling twice with a controller gives back the flag and the cursor's visibility. */
  lemma ToggleTwice(v: CameraView)
    requires Coupled(v) && v.cursor.Some?
    ensures Toggled(Toggled(v)).enabled == v.enabled
    ensures Toggled(Toggled(v)).cursor.value.shown == v.cursor.value.shown
  {
  }

  /** The camera directions movement input goes along. */
  datatype CameraDirection = CameraForward | CameraRight | CameraUp

  /** What a movement or look handler asks the engine for. */
  datatype Request = Move(direction: CameraDirection, scale: real) | Yaw(axis: real) | Pitch(axis: real)

  /** The size of a viewport or render target, in pixels. */
  datatype Size = Size(width: int, height: int)

  /** The parts of the possessing player controller the pawn sets. */
  class PlayerView {
    /** Whether the controller is an editor player controller. */
    const isEditorController: bool
    var showMouseCursor: bool
    var inputMode: InputMode

    constructor (isEditorController: bool, showMouseCursor: bool, inputMode: InputMode)
      ensures this.isEditorController == isEditorController
      ensures this.showMouseCursor == showMouseCursor && this.inputMode == inputMode
    {
      this.isEditorController := isEditorController;
      this.showMouseCursor := showMouseCursor;
      this.inputMode := inputMode;
    }
  }

  class EditorCameraPawn {
    var isCameraControlEnabled: bool
    /** The possessing player controller, null when there is none. */
    const controller: PlayerView?
    /** The render target of the arrow capture, created at BeginPlay when there is a game viewport. */
    var renderTarget: Option<Size>

    /** The controller, as a frame: empty when there is none. */
    ghost function Controlled(): set<PlayerView> {
      if controller != null then {controller} else {}
    }

    function State(): CameraView
      reads this, controller
    {
      CameraView(isCameraControlEnabled,
                 if controller != null then Some(Cursor(controller.showMouseCursor, controller.inputMode)) else None)
    }

    /** The constructor: camera control starts off, and there is no render target yet. */
    constructor (controller: PlayerView?)
      ensures this.controller == controller
      ensures !isCameraControlEnabled && renderTarget.None?
    {
      this.controller := controller;
      isCameraControlEnabled := false;
      renderTarget := None;
    }

    /** BeginPlay, given the game viewport's size when there is a game viewport. */
    method BeginPlay(viewport: Option<Size>)
      modifies this`isCameraControlEnabled, this`renderTarget, Controlled()`showMouseCursor, Controlled()`inputMode
      ensures State() == BegunPlay(old(State()), controller != null && controller.isEditorController)
      ensures renderTarget == if viewport.Some? then viewport else old(renderTarget)
    {
      if controller != null && controller.isEditorController {
        controller.showMouseCursor := true;
        controller.inputMode := GameAndUI(false);
      }
      if viewport.Some? {
        renderTarget := viewport;
      }
      isCameraControlEnabled := false;
    }

    /** OnViewportResized: the render target takes the new size only when both sides are positive. */
    method OnViewportResized(hasViewport: bool, size: Size)
      modifies this`renderTarget
      ensures renderTarget.Some? == old(renderTarget).Some?
      ensures old(renderTarget).Some? && hasViewport && size.width > 0 && size.height > 0 ==> renderTarget == Some(size)
      ensures !(hasViewport && size.width > 0 && size.height > 0) ==> renderTarget == old(renderTarget)
    {
      if renderTarget.Some? && hasViewport {
        if size.width > 0 && size.height > 0 {
          renderTarget := Some(size);
        }
      }
    }

    method OnRightMouseButtonPressed()
      modifies this`isCameraControlEnabled, Controlled()`showMouseCursor, Controlled()`inputMode
      ensures State() == RightPressed(old(State()))
    {
      isCameraControlEnabled := true;
      if controller != null {
        controller.inputMode := GameOnly;
        controller.showMouseCursor := false;
      }
    }

    method OnRightMouseButtonReleased()
      modifies this`isCameraControlEnabled, Controlled()`showMouseCursor, Controlled()`inputMode
      ensures State() == RightReleased(old(State()))
    {
      isCameraControlEnabled := false;
      if controller != null {
        controller.inputMode := GameAndUI(false);
        controller.showMouseCursor := true;
      }
    }

    method ToggleCameraControl()
      modifies this`isCameraControlEnabled, Controlled()`showMouseCursor, Controlled()`inputMode
      ensures State() == Toggled(old(State()))
    {
      if controller != null {
        isCameraControlEnabled := !isCameraControlEnabled;
        if isCameraControlEnabled {
          controller.showMouseCursor := false;
          controller.inputMode := GameOnly;
        } else {
          controller.showMouseCursor := true;
          controller.inputMode := GameAndUI(true);
        }
      }
    }

    method ExitCameraControl()
      modifies this`isCameraControlEnabled, Controlled()`showMouseCursor, Controlled()`inputMode
      ensures State() == Exited(old(State()))
    {
      if isCameraControlEnabled {
        ToggleCameraControl();
      }
    }

    /** MoveForward: movement along the camera's forward vector, only under camera control and for a nonzero axis. */
    method MoveForward(value: real) returns (r: Option<Request>)
      ensures r.Some? <==> isCameraControlEnabled && value != 0.0
      ensures r.Some? ==> r.value == Move(CameraForward, value)
    {
      r := None;
      if isCameraControlEnabled {
        if value != 0.0 {
          r := Some(Move(CameraForward, value));
        }
      }
    }

    /** MoveRight: movement along the camera's right vector, under the same gate. */
    method MoveRight(value: real) returns (r: Option<Request>)
      ensures r.Some? <==> isCameraControlEnabled && value != 0.0
      ensures r.Some? ==> r.value == Move(CameraRight, value)
    {
      r := None;
      if isCameraControlEnabled {
        if value != 0.0 {
          r := Some(Move(CameraRight, value));
        }
      }
    }

    /** MoveUp: movement along the camera's up vector, under the same gate. */
    method MoveUp(value: real) returns (r: Option<Request>)
      ensures r.Some? <==> isCameraControlEnabled && value != 0.0
      ensures r.Some? ==> r.value == Move(CameraUp, value)
    {
      r := None;
      if isCameraControlEnabled {
        if value != 0.0 {
          r := Some(Move(CameraUp, value));
        }
      }
    }

    /** Turn: yaw input in the direction of the axis, under the same gate. */
    method Turn(value: real) returns (r: Option<Request>)
      ensures r.Some? <==> isCameraControlEnabled && value != 0.0
      ensures r.Some? ==> r.value == Yaw(value)
    {
      r := None;
      if isCameraControlEnabled {
        if value != 0.0 {
          r := Some(Yaw(value));
        }
      }
    }

    /** LookUp: pitch input against the direction of the axis, under the same gate. */
    method LookUp(value: real) returns (r: Option<Request>)
      ensures r.Some? <==> isCameraControlEnabled && value != 0.0
      ensures r.Some? ==> r.value == Pitch(-value)
    {
      r := None;
      if isCameraControlEnabled {
        if value != 0.0 {
          r := Some(Pitch(-value));
        }
      }
    }
  }

  /** The gizmos, as a frame. */
  ghost function GizmoSet(gizmos: seq<MoveArrows>): set<MoveArrows> {
    set i | 0 <= i < |gizmos| :: gizmos[i]
  }

  /**
    OnLeftMouseButtonReleased: every gizmo in the world ends its drag, each
    as its own StopDragging does, with the first player controller and its
    hit under the cursor given by `hasController` and `cursorHit`. A gizmo
    listed more than once ends up as if stopped once.
   */
  method OnLeftMouseButtonReleased(gizmos: seq<MoveArrows>, hasController: bool, cursorHit: Option<Component>)
    requires forall i :: 0 <= i < |gizmos| ==> gizmos[i].Valid()
    modifies GizmoSet(gizmos)`isDragging, GizmoSet(gizmos)`draggedComponent,
             GizmoSet(gizmos)`highlightedArrow, GizmoSet(gizmos)`arrowColor
    ensures forall i :: 0 <= i < |gizmos| ==>
              gizmos[i].Valid() && gizmos[i].State() == DragStopped(old(gizmos[i].State()), hasController, cursorHit)
  {
    var k := 0;
    while k < |gizmos|
      invariant 0 <= k <= |gizmos|
      invariant forall i :: 0 <= i < |gizmos| ==> gizmos[i].Valid()
      invariant forall i :: 0 <= i < k ==> gizmos[i].State() == DragStopped(old(gizmos[i].State()), hasController, cursorHit)
      invariant forall i :: 0 <= i < |gizmos| ==>
                  gizmos[i].State() == old(gizmos[i].State()) ||
                  gizmos[i].State() == DragStopped(old(gizmos[i].State()), hasController, cursorHit)
    {
      StopDraggingIdempotent(old(gizmos[k].State()), hasController, cursorHit);
      gizmos[k].StopDragging(hasController, cursorHit);
      k := k + 1;
    }
  }
}
