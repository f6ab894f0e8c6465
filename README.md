# Editor core of truworld, modelled in Dafny

truworld's in-game level editor is an Unreal Engine module made of a few
actors and widgets. This project models how that editor behaves: what each
event handler does to the fields it owns. The parts modelled are:

- **The move gizmo** (`AMoveArrows`, module `Gizmo`). It has three arrows:
  Right, Up and Forward. Hovering an arrow highlights it in its hovered colour,
  clicking starts a drag along that arrow's own axis, and releasing ends the
  drag. During each tick the gizmo follows the selected object, or, while
  dragging, the object follows the gizmo.
- **The editor player controller** (`AEditorPlayerController`, module
  `Controller`):
  - the selection and the copy buffer;
  - the arrow under the mouse and the arrow drag started by a tick;
  - the drag of a freshly spawned object;
  - copy and paste gated by the Control keys;
  - the unique name given to a pasted copy (`"Base (k)"` for the least free
    `k`, module `UniqueName`, with the decimal text of `k` in module
    `Decimal`).
- **The outliner** (`UEditorUI`, module `Widgets`, specified by module
  `Outline`). Game objects are grouped into parent buckets in discovery order
  and then walked in pre-order from the bucket of parentless objects. Each
  row is padded by 20 per indent level.
- **The outliner row** (`UTruGameObjectWidget`): name truncation, edit mode,
  rename commit, the selection-dependent border, and the right-click that
  opens the context menu.
- **The context menu** (`UContextMenuWidget`): one option per pair of its
  options map, its target row, and its visibility.
- **The camera pawn** (`AEditorCameraPawn`, module `CameraPawn`). One flag,
  camera control, gates movement and look input. It also drives the
  controller's cursor and input mode.

Each stateful engine object is a Dafny `class` whose fields are the source's
fields, and its event handlers are methods that update them in place. Every
handler that follows a state machine is tied to a pure transition function
on a snapshot datatype (`GizmoState`, `ControllerState`, `RowState`,
`MenuState`, `CameraView`); its postcondition is
`State() == Transition(old(State()), …)`. The properties themselves are
proved about the transition functions and stated in their contracts. Engine
queries (mouse position and deprojection, line traces, actor iteration,
spawning) are method parameters. Sub-widgets that may or may not be bound are
constant flags.

Engine strings (`FString`) compare without regard to case. The model
therefore compares names with ASCII case folding wherever the source compares
strings: the name search in `GenerateUniqueName` and the `"rename"` key in
`OnElementClicked`.

Files: `scene.dfy`, `move_arrows.dfy`, `editor_player_controller.dfy`,
`unique_name.dfy`, `decimal.dfy`, `outline.dfy`, `widgets.dfy`,
`editor_camera_pawn.dfy`.

## Model

| member | source | states |
|---|---|---|
| Scene.GameObject.constructor | Source/truworld/GameObjects/TruGameObject.h:12-33 | A game object has a name, an optional parent object and a location. |
| Gizmo.Initial | Source/truworld/Editor/MoveArrows.cpp:13-48 | A new gizmo is not dragging, has nothing highlighted, and satisfies the invariant: dragging holds exactly when there is a dragged arrow. |
| Gizmo.MoveArrows.constructor | Source/truworld/Editor/MoveArrows.cpp:13-48 | The fields start as `Initial` describes: no highlight, no drag, every arrow visible. |
| Gizmo.Construct | Source/truworld/Editor/MoveArrows.cpp:245-288 | Every arrow with an editor material gets a dynamic material in its normal colour. The other arrows keep their colour. Nothing else changes, and the invariant is kept. |
| Gizmo.PaintAllColors | Source/truworld/Editor/MoveArrows.cpp:250-287 | The three steps together (Right, then Up, then Forward) paint exactly the arrows that have a material. |
| Gizmo.MaterialsOfThree | Source/truworld/Editor/MoveArrows.cpp:250-287 | A set of arrows is the union of its Right, Up and Forward parts. |
| Gizmo.Paint | Source/truworld/Editor/MoveArrows.cpp:250-261 | One arrow's step: an arrow with a material gets its normal colour (Right white, Up blue, Forward green). The other colours are kept. |
| Gizmo.MoveArrows.OnConstruction | Source/truworld/Editor/MoveArrows.cpp:245-288 | The new gizmo state is `Construct` of the old one. |
| Gizmo.AllVisible | Source/truworld/Editor/MoveArrows.cpp:50-55 | All three arrows get the same visibility and nothing else changes. |
| Gizmo.MoveArrows.SetVisibility | Source/truworld/Editor/MoveArrows.cpp:50-55 | The new state is `AllVisible` of the old one. |
| Gizmo.CursorOver | Source/truworld/Editor/MoveArrows.cpp:290-312 | While dragging, nothing changes. Otherwise an arrow with a dynamic material becomes the highlight in its hovered colour, and any other component changes nothing. The invariant is kept. |
| Gizmo.MoveArrows.OnCursorOver | Source/truworld/Editor/MoveArrows.cpp:290-312 | The new state is `CursorOver` of the old one. |
| Gizmo.MoveArrows.RestoreHighlighted | Source/truworld/Editor/MoveArrows.cpp:321-336 | The highlighted arrow gets its normal colour back and the highlight is cleared. |
| Gizmo.CursorEnd | Source/truworld/Editor/MoveArrows.cpp:314-337 | While dragging, or when leaving a component that is not the highlight, nothing changes. Leaving the highlight clears it and restores that arrow's normal colour. The invariant is kept. |
| Gizmo.MoveArrows.OnCursorEnd | Source/truworld/Editor/MoveArrows.cpp:314-337 | The new state is `CursorEnd` of the old one. |
| Gizmo.MoveArrows.StartDragging | Source/truworld/Editor/MoveArrows.cpp:157-162 | Sets the dragging flag, the dragged arrow and its axis, and makes the drag start the gizmo's current location. |
| Gizmo.ArrowClicked | Source/truworld/Editor/MoveArrows.cpp:339-371 | Clicking arrow X starts a drag of X along X's own axis (Right along the right vector, Up along up, Forward along forward) from the current location. X is highlighted when it has a dynamic material. A click on anything else changes nothing. Visibility and the invariant are kept. |
| Gizmo.MoveArrows.OnArrowClicked | Source/truworld/Editor/MoveArrows.cpp:339-371 | The new state is `ArrowClicked` of the old one. |
| Gizmo.DragStopped | Source/truworld/Editor/MoveArrows.cpp:199-242 | Afterwards there is never a drag or a dragged arrow. The highlight and colours survive only when there is no player controller or the cursor is still over the highlighted arrow. Otherwise the highlight is cleared and its normal colour restored. The invariant is kept. |
| Gizmo.MoveArrows.StopDragging | Source/truworld/Editor/MoveArrows.cpp:199-242 | The new state is `DragStopped` of the old one. |
| Gizmo.MoveArrows.OnArrowReleased | Source/truworld/Editor/MoveArrows.cpp:373-376 | A release is a `StopDragging`, whatever component was released. |
| Gizmo.StopDraggingIdempotent | Source/truworld/Editor/MoveArrows.cpp:199-242 | Stopping a drag twice is the same as stopping it once. |
| Gizmo.HoverThenLeave | Source/truworld/Editor/MoveArrows.cpp:290-337 | Hovering an arrow at rest and then leaving it gives back exactly the original gizmo. |
| Gizmo.ClickThenReleaseOnArrow | Source/truworld/Editor/MoveArrows.cpp:199-242 | A click on an arrow followed by a release with the cursor still on it leaves that arrow highlighted, with no drag, and the invariant holds. |
| Gizmo.Follow | Source/truworld/Editor/MoveArrows.cpp:78-84 | With a selected object, a gizmo that is not dragging moves to the object, and during a drag the object moves to the gizmo. Either way they end at the same place. |
| Gizmo.MoveArrows.Tick | Source/truworld/Editor/MoveArrows.cpp:74-155 | The follow rule is applied first. Then, during a drag with a mouse ray, the gizmo moves to the drag target. Of the selected object only the location may change: its name and parent stay. |
| Decimal.DigitChar | Source/truworld/Editor/EditorPlayerController.cpp:224 | The character for a digit below 10 is a decimal digit. |
| Decimal.DigitValue | Source/truworld/Editor/EditorPlayerController.cpp:224 | The value of a digit character is below 10. |
| Decimal.DigitValueOfDigitChar | Source/truworld/Editor/EditorPlayerController.cpp:224 | A digit's character has that digit's value. |
| Decimal.NatToString | Source/truworld/Editor/EditorPlayerController.cpp:224 | The `%d` text of a suffix is non-empty, all digits, and has no leading zero. |
| Decimal.ParseNatToString | Source/truworld/Editor/EditorPlayerController.cpp:224 | Parsing the `%d` text of `n` gives back `n`. |
| Decimal.NatToStringInjective | Source/truworld/Editor/EditorPlayerController.cpp:224 | Different suffixes have different texts. |
| UniqueName.FoldCase | Source/truworld/Editor/EditorPlayerController.cpp:228 | Case folding keeps the length, leaves no ASCII capital, turns each capital into its lower-case letter and keeps every other character. |
| UniqueName.SuffixedLonger | Source/truworld/Editor/EditorPlayerController.cpp:224 | A candidate `"Base (k)"` is at least four characters longer than `Base`, so it is never `Base` itself, even ignoring case. |
| UniqueName.FoldSuffixed | Source/truworld/Editor/EditorPlayerController.cpp:224-228 | Case folding leaves the `" (k)"` suffix of a candidate alone. |
| UniqueName.SuffixedDistinct | Source/truworld/Editor/EditorPlayerController.cpp:222-234 | Two candidates that are equal ignoring case have the same suffix. |
| UniqueName.FoldedCandidatesSize | Source/truworld/Editor/EditorPlayerController.cpp:222-234 | The first `k` candidates are `k` names that differ even ignoring case. |
| UniqueName.FoldedNamesSize | Source/truworld/Editor/EditorPlayerController.cpp:226-233 | The existing names, folded, are at most as many as the names. |
| UniqueName.Pigeonhole | Source/truworld/Editor/EditorPlayerController.cpp:222-234 | If every suffix below `k` is in use, then `k` is at most the number of existing names. This is why the search ends. |
| UniqueName.FreeFrom | Source/truworld/Editor/EditorPlayerController.cpp:222-234 | Continuing the search from a point where every smaller suffix is taken reaches a free suffix no larger than the number of names. |
| UniqueName.LeastFreeSuffix | Source/truworld/Editor/EditorPlayerController.cpp:215-237 | The least free suffix exists, is at most the number of existing names, and is free, and every smaller suffix is in use. |
| UniqueName.LeastFreeUnique | Source/truworld/Editor/EditorPlayerController.cpp:222-234 | A free suffix whose smaller suffixes are all taken is the least free suffix. |
| Controller.EditorPlayerController.GenerateUniqueName | Source/truworld/Editor/EditorPlayerController.cpp:215-237 | Returns `"Base (k)"` for the least `k` whose candidate no existing name matches ignoring case. So the result is never an existing name and never the unsuffixed base. |
| Controller.EditorPlayerController.constructor | Source/truworld/Editor/EditorPlayerController.cpp:12-37 | After construction and BeginPlay, nothing is copied, hovered or dragged, spawning is off, and the new object placed at the pawn is selected. The controller invariant holds. The outliner is required, because BeginPlay adds it to the viewport unchecked; the gizmo may be missing. The outliner ends up refreshed from the level's objects, the new one included, against a null selection, so no row shows as selected. |
| Controller.EditorPlayerController.OnGameObjectsRefreshed | Source/truworld/Editor/EditorPlayerController.cpp:39-43 | With a bound box and a row class, the outliner is rebuilt, showing exactly the outline of the level's objects against the current selection, with bound edit boxes collapsed. With a bound box and no row class, it ends up empty. Without a bound box, its rows stay. |
| Controller.EditorPlayerController.SetSelected | Source/truworld/Editor/EditorPlayerController.cpp:45-55 | `g` becomes the selection, the gizmo is visible exactly when `g` is an object, and every outliner row recomputes its border against `g`. Nothing else changes. |
| Controller.EditorPlayerController.DragObject | Source/truworld/Editor/EditorPlayerController.cpp:58-89 | The tick is taken exactly when an object drag with its object is running. The object then moves to the point under the mouse, when there is one. In every other case the dragged object stays where it was. |
| Controller.FirstHit | Source/truworld/Editor/EditorPlayerController.cpp:119-142 | Returns the first arrow of the trace order that is hit, or nothing exactly when no traced arrow is hit. |
| Controller.EditorPlayerController.TraceArrows | Source/truworld/Editor/EditorPlayerController.cpp:119-142 | The trace loop returns `FirstHit` in the order Forward, Up, Right. |
| Controller.TracePriority | Source/truworld/Editor/EditorPlayerController.cpp:119-142 | Forward wins over Up, and Up wins over Right. Nothing is hit exactly when no arrow is hit. |
| Controller.HoverMoved | Source/truworld/Editor/EditorPlayerController.cpp:144-156 | When the hovered arrow changes, cursor-end goes to the old arrow and cursor-over to the new one. The new arrow ends highlighted in its hovered colour, and a highlighted old arrow gets its normal colour back. A dragging gizmo ignores both events. Only the highlight and colours change. |
| Controller.Ticked | Source/truworld/Editor/EditorPlayerController.cpp:91-175 | While an object drag is running, or without a mouse ray, nothing changes. Otherwise the hovered arrow becomes the first hit. Then a pressed mouse over a hit arrow starts an arrow drag along its axis, and a released mouse ends the drag in progress. Gizmo visibility and the gizmo invariant are kept. |
| Controller.TickedSteps | Source/truworld/Editor/EditorPlayerController.cpp:144-174 | A tick is the hover rule followed by the drag rule. |
| Controller.ArrowDragged | Source/truworld/Editor/EditorPlayerController.cpp:158-174 | With the mouse down, a hit and no drag, the arrow is clicked and the dragging flag is set. With the mouse up and a drag in progress, the arrow is released and the flag cleared. Otherwise nothing changes. |
| Controller.PressDragRelease | Source/truworld/Editor/EditorPlayerController.cpp:158-174 | A press over an arrow starts its drag on the next tick. After the button is released, the following tick ends the drag in both the controller and the gizmo. |
| Controller.EditorPlayerController.PlayerTick | Source/truworld/Editor/EditorPlayerController.cpp:91-175 | The controller and its gizmo move exactly as `Ticked` says. A running object drag moves its object to the point under the mouse. In every other case the dragged object stays where it was. |
| Controller.EditorPlayerController.PickAndDragArrows | Source/truworld/Editor/EditorPlayerController.cpp:112-174 | Without a running object drag, the controller and the gizmo move as `Ticked` says. |
| Controller.EditorPlayerController.UpdateHover | Source/truworld/Editor/EditorPlayerController.cpp:144-156 | The gizmo hears of a change of the hovered arrow as `HoverMoved` says, and then the hovered component is updated. |
| Controller.EditorPlayerController.UpdateArrowDrag | Source/truworld/Editor/EditorPlayerController.cpp:158-174 | The controller and the gizmo move as `ArrowDragged` says. |
| Controller.EditorPlayerController.CopyObject | Source/truworld/Editor/EditorPlayerController.cpp:178-185 | The selection becomes the copied object only when something is selected. Otherwise nothing changes. |
| Controller.EditorPlayerController.PasteObject | Source/truworld/Editor/EditorPlayerController.cpp:187-213 | With nothing copied, nothing changes. Otherwise the copy is requested under the copied name's least free suffixed name, which no existing name matches, and a successful spawn selects the copy and shows the gizmo. |
| Controller.EditorPlayerController.OnCopyPressed | Source/truworld/Editor/EditorPlayerController.cpp:253-259 | Copies only while a Control key is held. |
| Controller.EditorPlayerController.OnPastePressed | Source/truworld/Editor/EditorPlayerController.cpp:261-267 | Pastes only while a Control key is held, and otherwise changes nothing. |
| Controller.PressSelection | Source/truworld/Editor/EditorPlayerController.cpp:268-338 | The selection a press makes. In spawn mode it is the spawned object, if any. Otherwise a hit game object is selected, a miss selects null, and a hit on the gizmo or another actor, or a missing mouse ray, selects nothing. |
| Controller.Pressed | Source/truworld/Editor/EditorPlayerController.cpp:268-338 | The button is down and the press's selection is made. In spawn mode with a mouse ray, the spawned object becomes the dragged object, and the object drag runs exactly when the spawn succeeded. Nothing else changes. |
| Controller.PressedInSpawnMode | Source/truworld/Editor/EditorPlayerController.cpp:272-312 | Spawn mode, case by case: no mouse ray only marks the button down, a failed spawn clears the dragged object, and a spawned object is selected and dragged. |
| Controller.PressedOutsideSpawnMode | Source/truworld/Editor/EditorPlayerController.cpp:314-337 | Outside spawn mode only the selection changes: a game-object hit selects it, a miss deselects, and any other hit keeps the selection. |
| Controller.SpawnDragRelease | Source/truworld/Editor/EditorPlayerController.cpp:268-345 | A spawned object is selected and dragged while the button is down. After the release it stays selected and no object drag runs. |
| Controller.EditorPlayerController.OnLeftMouseDown | Source/truworld/Editor/EditorPlayerController.cpp:268-338 | The new state is `Pressed` of the old one. The gizmo is shown exactly when the press selected an object, and is untouched when the press selected nothing. |
| Controller.EditorPlayerController.SpawnPress | Source/truworld/Editor/EditorPlayerController.cpp:272-312 | The spawn branch of a press ends as `Pressed` says. |
| Controller.EditorPlayerController.PickPress | Source/truworld/Editor/EditorPlayerController.cpp:314-337 | The picking branch of a press ends as `Pressed` says. |
| Controller.EditorPlayerController.SpawnAtMouse | Source/truworld/Editor/EditorPlayerController.cpp:272-312 | With a mouse ray, the spawned object becomes the dragged object. A successful spawn is selected and starts an object drag. |
| Controller.EditorPlayerController.PickAtMouse | Source/truworld/Editor/EditorPlayerController.cpp:314-337 | With a mouse ray, a hit game object is selected, a miss deselects, and any other hit changes nothing. |
| Controller.EditorPlayerController.OnLeftMouseUp | Source/truworld/Editor/EditorPlayerController.cpp:339-344 | Clears the mouse-down flag and the object drag and its object, and keeps the invariant. |
| Controller.EditorPlayerController.DragginSpawn | Source/truworld/Editor/EditorPlayerController.h:61-62 | Pressing C arms spawning. |
| Controller.EditorPlayerController.DragginDespawn | Source/truworld/Editor/EditorPlayerController.h:61-63 | Releasing C disarms spawning. |
| Controller.RowButtonClicked | Source/truworld/Editor/Widgets/TruGameObjectWidget.cpp:88-95 | With an editor controller, the row's object becomes the selection. The row's border then shows it selected exactly when an editor controller selected it. |
| Controller.SelectRowObject | Source/truworld/Editor/Widgets/TruGameObjectWidget.cpp:90-93 | The controller selects the row's object. The row has either kept its state or been recoloured against the new selection. |
| Outline.ChildrenUpTo | Source/truworld/Editor/Widgets/EditorUI.cpp:26-36 | Every object in the bucket built from the first `n` discoveries reported that parent. |
| Outline.ChildrenOf | Source/truworld/Editor/Widgets/EditorUI.cpp:26-36 | Every object in a parent's bucket reported that parent. |
| Outline.ReportedIsChild | Source/truworld/Editor/Widgets/EditorUI.cpp:26-36 | Every object reported under a parent is placed in that parent's bucket. |
| Outline.DiscoveredIsChild | Source/truworld/Editor/Widgets/EditorUI.cpp:28-36 | Each discovery is in the bucket of the parent it reports. |
| Outline.ParentUnique | Source/truworld/Editor/Widgets/EditorUI.cpp:33 | An object reports only one parent. |
| Outline.PathNoRepeat | Source/truworld/Editor/Widgets/EditorUI.cpp:71-78 | A chain from a parentless object down through children never repeats an object, so a parent cycle is never reached. |
| Outline.PrefixValid | Source/truworld/Editor/Widgets/EditorUI.cpp:71-78 | Every prefix of such a chain is a chain. |
| Outline.ExtendValid | Source/truworld/Editor/Widgets/EditorUI.cpp:71-78 | Going down to a child keeps a chain valid. |
| Outline.Extend | Source/truworld/Editor/Widgets/EditorUI.cpp:71-78 | Going down to a child decreases the number of objects not yet on the chain. This is why the recursion, which has no cycle guard, ends. |
| Outline.ForestHasSubtree | Source/truworld/Editor/Widgets/EditorUI.cpp:74-77 | Every row of one child's subtree appears among the rows of its bucket. |
| Outline.IndexInBucket | Source/truworld/Editor/Widgets/EditorUI.cpp:26-36 | An object in a bucket sits at some position of it. |
| Outline.SubtreeInRows | Source/truworld/Editor/Widgets/EditorUI.cpp:39-46 | Every row of a chain's subtree, drawn at the chain's depth, is an outliner row. |
| Outline.WalkRowHasPath | Source/truworld/Editor/Widgets/EditorUI.cpp:49-80 | Every row of a subtree is reached by a chain below it, at the indent plus the extra depth. |
| Outline.ForestRowHasPath | Source/truworld/Editor/Widgets/EditorUI.cpp:71-78 | Every row of a bucket's subtrees is reached by a longer chain, at the matching depth. |
| Outline.ChildRowHasPath | Source/truworld/Editor/Widgets/EditorUI.cpp:74-77 | Every row of a child's subtree is reached by a chain through that child. |
| Outline.RowsAreReachable | Source/truworld/Editor/Widgets/EditorUI.cpp:39-46 | A row `(x, d)` is shown if and only if some chain of `d + 1` objects, from a parentless one going down from parent to child, ends at `x`. Only objects reachable from the parentless bucket appear. |
| Outline.RowsAreDiscovered | Source/truworld/Editor/Widgets/EditorUI.cpp:21-46 | Every row shows a discovered object. |
| Widgets.Entries | Source/truworld/Editor/Widgets/EditorUI.cpp:28-36 | Each discovered object is recorded with the parent read from it, so each object has a single parent. |
| Widgets.NamesOf | Source/truworld/Editor/Widgets/TruGameObjectWidget.cpp:21 | Maps every discovered object to its name. |
| Widgets.BucketOfLast | Source/truworld/Editor/Widgets/EditorUI.cpp:71 | The map gives the last object of a chain the bucket the outline takes its children from. |
| Widgets.ShowsAppend | Source/truworld/Editor/Widgets/EditorUI.cpp:62 | Rows appended to the box after earlier rows show those rows after the earlier ones. |
| Widgets.SubtreeStart | Source/truworld/Editor/Widgets/EditorUI.cpp:56-68 | Before any child, a subtree shows only its own row. |
| Widgets.SubtreeEnd | Source/truworld/Editor/Widgets/EditorUI.cpp:71-78 | After all children, the rows are the whole subtree. |
| Widgets.SubtreeStep | Source/truworld/Editor/Widgets/EditorUI.cpp:74-77 | The next child's subtree, one level deeper, follows the rows so far. |
| Widgets.RootStep | Source/truworld/Editor/Widgets/EditorUI.cpp:42-45 | The next root's subtree at indent 0 follows the earlier roots' rows. |
| Widgets.EditorUI.constructor | Source/truworld/Editor/Widgets/EditorUI.h:1-29 | A new panel holds no rows. |
| Widgets.EditorUI.Refresh | Source/truworld/Editor/Widgets/EditorUI.cpp:9-47 | Without a bound box, nothing changes. Otherwise the old rows are cleared, and the new rows are exactly the outline: one fresh row widget per pre-order row, bound to its object, padded `indent * 20`, showing its display name and border, its bound edit box collapsed as NativeConstruct leaves it. |
| Widgets.EditorUI.ParentToChildren | Source/truworld/Editor/Widgets/EditorUI.cpp:26-36 | Each object is put in the bucket of its parent, or the null bucket, in discovery order. |
| Widgets.EditorUI.AddRoots | Source/truworld/Editor/Widgets/EditorUI.cpp:39-46 | The subtrees of the parentless objects at indent 0 give all the outliner's rows, each a set-up and constructed row widget as AddRow leaves it. |
| Widgets.EditorUI.AddRootSubtree | Source/truworld/Editor/Widgets/EditorUI.cpp:42-45 | One root's subtree is appended after the rows already there, each row a set-up and constructed widget. |
| Widgets.EditorUI.AddRow | Source/truworld/Editor/Widgets/EditorUI.cpp:56-68 | A fresh row widget is appended with left padding `indent * 20`. It is bound to the object and the panel and shows the display name and border, and, because the box runs its NativeConstruct, a bound edit box is collapsed. |
| Widgets.EditorUI.AddGameObjectWidget | Source/truworld/Editor/Widgets/EditorUI.cpp:49-80 | Appends the object's row at its indent and then its children's subtrees one level deeper: exactly the pre-order walk of its subtree, each row a set-up and constructed widget. |
| Widgets.EditorUI.AddChildren | Source/truworld/Editor/Widgets/EditorUI.cpp:71-78 | The children's subtrees, in bucket order, complete the object's subtree after its own row, each row a set-up and constructed widget. |
| Widgets.EditorUI.AddChildSubtree | Source/truworld/Editor/Widgets/EditorUI.cpp:74-77 | One child's subtree, one level deeper, is appended, each row a set-up and constructed widget. |
| Widgets.EditorUI.OnSelectedObject | Source/truworld/Editor/Widgets/EditorUI.cpp:82-91 | Every row recomputes its border against the selection, and its object and panel are kept. |
| Widgets.DisplayName | Source/truworld/Editor/Widgets/TruGameObjectWidget.cpp:18-28 | A name of at most 40 characters is shown whole. A longer one is shown as its first 40 characters followed by `"..."`. The result is never longer than 43. |
| Widgets.Labelled | Source/truworld/Editor/Widgets/TruGameObjectWidget.cpp:19-28 | With a bound label and an object, the label and the edit box both get the display name. Otherwise nothing changes. |
| Widgets.TruGameObjectWidget.Setup | Source/truworld/Editor/Widgets/TruGameObjectWidget.cpp:13-32 | Binds the row to its object and panel, labels it, and colours the border. |
| Widgets.TruGameObjectWidget.constructor | Source/truworld/Editor/Widgets/TruGameObjectWidget.h:1-44 | A new row shows empty texts, is visible, and is not in edit mode. |
| Widgets.Constructed | Source/truworld/Editor/Widgets/TruGameObjectWidget.cpp:34-48 | A bound edit box starts collapsed, and nothing else changes. |
| Widgets.TruGameObjectWidget.NativeConstruct | Source/truworld/Editor/Widgets/TruGameObjectWidget.cpp:34-48 | The new state is `Constructed` of the old one. |
| Widgets.EditToggled | Source/truworld/Editor/Widgets/TruGameObjectWidget.cpp:50-63 | The mode is recorded. With both label and edit box bound, exactly one of them is visible, and the edit box is visible if and only if edit mode is on. |
| Widgets.TruGameObjectWidget.ToggleEditMode | Source/truworld/Editor/Widgets/TruGameObjectWidget.cpp:50-63 | The new state is `EditToggled` of the old one. |
| Widgets.ElementClicked | Source/truworld/Editor/Widgets/TruGameObjectWidget.cpp:65-69 | A `"rename"` key, compared ignoring case, enters edit mode and shows the edit box. Any other key changes nothing. |
| Widgets.RenameKeyIgnoresCase | Source/truworld/Editor/Widgets/TruGameObjectWidget.cpp:67 | `"Rename"` and `"RENAME"` enter edit mode too. |
| Widgets.TruGameObjectWidget.OnElementClicked | Source/truworld/Editor/Widgets/TruGameObjectWidget.cpp:65-69 | The new state is `ElementClicked` of the old one. |
| Widgets.NameCommitted | Source/truworld/Editor/Widgets/TruGameObjectWidget.cpp:120-138 | A commit by Enter or focus loss puts the text in a bound label and leaves edit mode. Any other commit method changes nothing. |
| Widgets.TruGameObjectWidget.OnNameTextCommitted | Source/truworld/Editor/Widgets/TruGameObjectWidget.cpp:120-138 | The row moves as `NameCommitted` says. A committing method also renames the object, and any other method leaves its name alone. |
| Widgets.RenameRoundTrip | Source/truworld/Editor/Widgets/TruGameObjectWidget.cpp:65-69 | The rename option followed by Enter goes into edit mode and back out, with the new label shown and the edit box collapsed. |
| Widgets.BorderFor | Source/truworld/Editor/Widgets/TruGameObjectWidget.cpp:97-118 | The border is "selected" if and only if an editor controller's selection is the row's object, and "normal" otherwise. |
| Widgets.Recolored | Source/truworld/Editor/Widgets/TruGameObjectWidget.cpp:103-118 | A bound border shows selected if and only if the row is selected. Nothing else changes. |
| Widgets.RecoloredIdempotent | Source/truworld/Editor/Widgets/TruGameObjectWidget.cpp:103-118 | Recolouring twice is the same as recolouring once. |
| Widgets.TruGameObjectWidget.UpdateBorderColor | Source/truworld/Editor/Widgets/TruGameObjectWidget.cpp:103-118 | The new state is `Recolored` of the old one. |
| Widgets.Hovered | Source/truworld/Editor/Widgets/TruGameObjectWidget.cpp:71-79 | A bound border turns to the hover colour only when the row is not selected. |
| Widgets.TruGameObjectWidget.NativeOnMouseEnter | Source/truworld/Editor/Widgets/TruGameObjectWidget.cpp:71-79 | The new state is `Hovered` of the old one. |
| Widgets.TruGameObjectWidget.NativeOnMouseLeave | Source/truworld/Editor/Widgets/TruGameObjectWidget.cpp:81-86 | Leaving recomputes the border. |
| Widgets.TruGameObjectWidget.NativeOnMouseButtonDown | Source/truworld/Editor/Widgets/TruGameObjectWidget.cpp:140-154 | The event is handled if and only if it is a right-click. A right-click outside edit mode opens the panel's context menu on this row. Otherwise the menu is untouched. |
| Widgets.DistinctKeysCount | Source/truworld/Editor/Widgets/ContextMenuWidget.cpp:49-64 | Entries with pairwise distinct keys have as many keys as entries. |
| Widgets.ListingSize | Source/truworld/Editor/Widgets/ContextMenuWidget.cpp:49-64 | A listing of the options map has exactly one entry per key, and shows every pair. |
| Widgets.ContextMenuWidget.constructor | Source/truworld/Editor/Widgets/ContextMenuWidget.cpp:11-14 | A new menu has no option widgets and no target row. |
| Widgets.ContextMenuWidget.BuildMenu | Source/truworld/Editor/Widgets/ContextMenuWidget.cpp:32-65 | With no options box, nothing changes. With no option class, the box is left empty. Otherwise the box holds exactly one option per pair of the map, with the pair's key and text. |
| Widgets.ContextMenuWidget.NativeConstruct | Source/truworld/Editor/Widgets/ContextMenuWidget.cpp:16-24 | The menu is built and then hidden. |
| Widgets.ContextMenuWidget.SetOptionsMap | Source/truworld/Editor/Widgets/ContextMenuWidget.cpp:26-30 | The map is replaced, and the options list the new map alone. |
| Widgets.Shown | Source/truworld/Editor/Widgets/ContextMenuWidget.cpp:84-98 | With a player controller, the menu targets the row and becomes visible. Without one, nothing changes. |
| Widgets.ContextMenuWidget.ShowMenuAtMousePosition | Source/truworld/Editor/Widgets/ContextMenuWidget.cpp:84-98 | The new state is `Shown` of the old one. |
| Widgets.Hidden | Source/truworld/Editor/Widgets/ContextMenuWidget.cpp:67-82 | The menu is hidden and its target row is kept. |
| Widgets.ContextMenuWidget.OnOptionClicked | Source/truworld/Editor/Widgets/ContextMenuWidget.cpp:67-74 | The key goes to the target row's `OnElementClicked`, when there is a target, the menu hides, and the key is broadcast. The target row stays bound to its object and panel. |
| Widgets.ContextMenuWidget.NativeOnMouseLeave | Source/truworld/Editor/Widgets/ContextMenuWidget.cpp:76-82 | Leaving always hides the menu. |
| CameraPawn.EditorCameraPawn.constructor | Source/truworld/Editor/EditorCameraPawn.cpp:47 | Camera control starts off. |
| CameraPawn.PlayerView.constructor | Source/truworld/Editor/EditorCameraPawn.cpp:57-68 | The controller's cursor and input mode, as the pawn sees them. |
| CameraPawn.BegunPlay | Source/truworld/Editor/EditorCameraPawn.cpp:52-106 | Camera control is off. An editor controller shows the cursor and gets game-and-UI input that keeps the cursor during capture. |
| CameraPawn.EditorCameraPawn.BeginPlay | Source/truworld/Editor/EditorCameraPawn.cpp:52-106 | The new state is `BegunPlay` of the old one. With a game viewport, a render target of the viewport's size is created. |
| CameraPawn.EditorCameraPawn.OnViewportResized | Source/truworld/Editor/EditorCameraPawn.cpp:118-133 | An existing render target takes the new size only when the viewport is given and both sides are positive. |
| CameraPawn.RightPressed | Source/truworld/Editor/EditorCameraPawn.cpp:166-180 | Camera control turns on. A controller's cursor is hidden, with game-only input. |
| CameraPawn.EditorCameraPawn.OnRightMouseButtonPressed | Source/truworld/Editor/EditorCameraPawn.cpp:166-180 | The new state is `RightPressed` of the old one. |
| CameraPawn.RightReleased | Source/truworld/Editor/EditorCameraPawn.cpp:182-196 | Camera control turns off. A controller's cursor is shown, with game-and-UI input. |
| CameraPawn.EditorCameraPawn.OnRightMouseButtonReleased | Source/truworld/Editor/EditorCameraPawn.cpp:182-196 | The new state is `RightReleased` of the old one. |
| CameraPawn.Toggled | Source/truworld/Editor/EditorCameraPawn.cpp:227-254 | Without a controller, nothing changes. With one, the flag flips and the cursor is shown exactly when control is off. |
| CameraPawn.EditorCameraPawn.ToggleCameraControl | Source/truworld/Editor/EditorCameraPawn.cpp:227-254 | The new state is `Toggled` of the old one. |
| CameraPawn.ToggleTwice | Source/truworld/Editor/EditorCameraPawn.cpp:227-254 | Toggling twice with a controller gives back the flag and the cursor's visibility. |
| CameraPawn.Exited | Source/truworld/Editor/EditorCameraPawn.cpp:219-225 | When control is off, nothing changes. With control on and a controller, control ends off with the cursor shown. |
| CameraPawn.EditorCameraPawn.ExitCameraControl | Source/truworld/Editor/EditorCameraPawn.cpp:219-225 | The new state is `Exited` of the old one. |
| CameraPawn.ExitIdempotent | Source/truworld/Editor/EditorCameraPawn.cpp:219-225 | Exiting twice is the same as exiting once. |
| CameraPawn.EditorCameraPawn.MoveForward | Source/truworld/Editor/EditorCameraPawn.cpp:256-267 | A forward move is requested if and only if control is on and the axis value is nonzero, and it is scaled by that value. |
| CameraPawn.EditorCameraPawn.MoveRight | Source/truworld/Editor/EditorCameraPawn.cpp:269-280 | A rightward move is requested if and only if control is on and the axis value is nonzero. |
| CameraPawn.EditorCameraPawn.MoveUp | Source/truworld/Editor/EditorCameraPawn.cpp:282-293 | An upward move is requested if and only if control is on and the axis value is nonzero. |
| CameraPawn.EditorCameraPawn.Turn | Source/truworld/Editor/EditorCameraPawn.cpp:295-305 | Yaw input is requested if and only if control is on and the axis value is nonzero. |
| CameraPawn.EditorCameraPawn.LookUp | Source/truworld/Editor/EditorCameraPawn.cpp:307-317 | Pitch input, against the axis, is requested if and only if control is on and the axis value is nonzero. |
| CameraPawn.OnLeftMouseButtonReleased | Source/truworld/Editor/EditorCameraPawn.cpp:203-217 | Every gizmo in the world ends its drag as its own `StopDragging` does, and keeps its invariant. |

## Left out

- The floating-point geometry is not modelled:
  - the closest point between the drag axis and the mouse ray, and the drag offset (`MoveArrows.cpp` 116-150, 164-196);
  - distance-based gizmo scaling (98-102);
  - aspect ratio (`EditorCameraPawn.cpp` 83, 126);
  - the rotation-speed and frame-time scaling of turn and look (302, 314).

  Locations are opaque values that are only copied. The drag target is an input of `Tick`.
- Engine queries are inputs of the methods:
  - the mouse position and its deprojection, and the line traces, which become which arrows are hit, what the level trace hit, and the component under the cursor;
  - the actor iterators, which become the list of discovered objects and the list of gizmos;
  - `GetFirstPlayerController`, which becomes the selection passed to row widgets, or a flag.
- Spawning is an input too: the spawned object, or null when the spawn failed.
- Controller.EditorPlayerController.PasteObject: returns the unique name requested for the copy. It does not model the engine assigning that name to the new actor.
- Delegate binding and broadcast are not modelled. `OnObjectSelected` is left out. `OnOptionSelected`'s broadcast is the value `OnOptionClicked` returns.
- Also left out: on-screen debug messages and logging; keyboard focus for the edit box.
- The input bindings of `SetupInputComponent` (`EditorPlayerController.cpp` 239-251) are not modelled. Note that C is bound to both DragginSpawn and OnCopyPressed, so Control+C also arms spawning; the model has the two handlers as separate methods.
- Widget creation is not modelled as something that can fail. The outliner creates rows only when a row class is set. The context menu creates options only when an option class is set.
- Widgets.ContextMenuWidget.BuildMenu: does not model option widgets without a text block, whose text stays unset. The option's map-iteration order is left unspecified: any order that lists every pair once is accepted.
- Widgets.ContextMenuWidget.SetOptionsMap: map keys are distinct as strings. The engine's string-keyed map would merge keys that differ only in case.
- `OnSelectedObject`'s unchecked use of a possibly unbound box is not modelled (`EditorUI.cpp` 85). Without a bound box the panel holds no rows, so the loop simply does nothing.
- `UEditorUI::NativeConstruct` (`EditorUI.cpp` 93-97) only calls Refresh. It runs when BeginPlay adds the outliner to the viewport, and the controller's constructor models that refresh; it is not a member of its own.
- Widgets.TruGameObjectWidget.OnNameTextCommitted: the engine's `Rename` (`TruGameObjectWidget.cpp` 126) aborts when another object in the same outer already holds the committed name, compared ignoring case. The model has no view of the other objects, so it renames in that case too, and does not promise that names stay distinct.
- Gizmo.MoveArrows.Tick: the first player controller is taken with `CastChecked` (`MoveArrows.cpp` 78), which aborts when there is none or it is not an editor controller. The model has no such abort; its caller passes the controller's selection, which covers only the case where the cast succeeds.
- The context menu's on-screen position (`ContextMenuWidget.cpp` 90-95) is not modelled.
- `ATruGameObject`'s lifecycle hooks (`TruGameObject.cpp` 44-71) only ask the controller to refresh the outliner, which is `OnGameObjectsRefreshed`. They are not members of their own. The refresh they set off when BeginPlay spawns the first object is part of the controller's constructor. Nor are the one-line forwarding in `OptionWidget.cpp` and the no-op default of `ContextMenuWidgetItem.h`.
- The declarations in `MoveArrows.h` (9-15, 30, 98-100) are never used and are not modelled.
- The camera pawn's scene-capture setup, post-process material, input-mapping context, `EndPlay`, empty `Tick` and empty `OnLeftMouseButtonPressed` are not modelled.
- Controller.EditorPlayerController.constructor: the engine constructor and `BeginPlay` (`EditorPlayerController.cpp` 12-37) are one method. The refreshes BeginPlay sets off (the outliner's NativeConstruct, then the new object's OnConstruction and BeginPlay hooks) are modelled as the last one alone, because each rebuilds every row; the caller passes the level's objects as `found`. The new object is placed before that refresh, which does not show locations. The gizmo and the outliner are created up front. The gizmo may be null. The outliner may not, since BeginPlay adds it to the viewport without a check (line 31) and would crash. Spawning starts disarmed because the engine zero-fills a new controller.
- Controller.EditorPlayerController.UpdateArrowDrag: the gizmo's release asks the first player controller for the hit under the cursor. The model takes that controller to be this editor controller.
- Controller.EditorPlayerController.SetSelected: requires a gizmo, because the source dereferences `Arrows` unchecked. PasteObject, OnPastePressed, OnLeftMouseDown and RowButtonClicked require one exactly when they reach SetSelected.
- Widgets.TruGameObjectWidget.Setup: requires a bound edit box whenever a label is bound and an object is given, because the source writes the edit box unchecked. NativeOnMouseButtonDown likewise requires a panel before it opens the menu.
- `Name.Len()` counts UTF-16 code units, and case folding covers more than ASCII. The model counts characters and folds ASCII letters only.
- Suffixes are unbounded. The source's `int32` suffix cannot overflow in practice, because the search ends once the suffix passes the number of existing names.
- Several methods split one source function into helpers, as proof structure: SpawnPress, PickPress, SpawnAtMouse, PickAtMouse, PickAndDragArrows, UpdateHover, UpdateArrowDrag, TraceArrows, RestoreHighlighted, AddRoots, AddRootSubtree, AddRow, AddChildren, AddChildSubtree and SelectRowObject. Each carries a row above citing the lines it covers.
- ToggleCameraControl's game-and-UI mode keeps the engine default of hiding the cursor during capture. The source does not set that flag there.
