/**
  The editor's outliner user interface: one row widget per game object
  (UTruGameObjectWidget), the right-click context menu (UContextMenuWidget)
  and the outliner panel that holds the rows (UEditorUI).

  The three classes refer to each other (a row knows its panel, the panel owns
  the context menu, the menu remembers the row it was opened for), so they
  share one module.

  Which of a widget's designer-made sub-widgets are bound is fixed when the
  widget is created; it is modelled by constant flags. The player controller
  a widget asks for the current selection is passed in as the value
  `selection`: `None` when the first player controller is not an editor
  player controller, `Some(s)` when it is and its selection is `s`.
 */
module Widgets {
  import opened Scene
  import opened Outline
  import opened UniqueName

  datatype Visibility = Visible | Collapsed

  /**
    The border colour of a row: the designer's colour before any update, the
    dark blue of an unselected row, the light blue of the selected row and
    the hover blue of a row under the cursor.
   */
  datatype BorderState = DesignBorder | NormalBorder | SelectedBorder | HoverBorder

  /** How an editable text box's text was committed. */
  datatype CommitMethod = Default | OnEnter | OnUserMovedFocus | OnCleared

  datatype MouseButton = LeftButton | RightButton | MiddleButton

  /** Whether an input event was consumed by the widget. */
  datatype Reply = Handled | Unhandled

  /** Which of a row widget's bound sub-widgets exist: name label, edit box, border. */
  datatype RowLayout = RowLayout(hasLabel: bool, hasEditBox: bool, hasBorder: bool)

  /** The longest name a row shows in full. */
  const MaxDisplayChars: nat := 40

  /** The horizontal padding one indent level adds to a row. */
  const IndentPadding: int := 20

  /**
    The text a row shows for an object name: the name itself when it has at
    most 40 characters, otherwise its first 40 characters and an ellipsis.
   */
  function DisplayName(name: string): (r: string)
    ensures |r| <= MaxDisplayChars + 3
    ensures |name| <= MaxDisplayChars ==> r == name
    ensures |name| > MaxDisplayChars ==>
              |r| == MaxDisplayChars + 3 && r[..MaxDisplayChars] == name[..MaxDisplayChars] && r[MaxDisplayChars..] == "..."
  {
    if |name| > MaxDisplayChars then name[..MaxDisplayChars] + "..." else name
  }

  /**
    A row is selected when the editor player controller exists and its
    selection is the row's object (which holds also when both are null).
   */
  predicate IsSelected(selection: Option<GameObject?>, obj: GameObject?) {
    selection.Some? && selection.value == obj
  }

  /** The border a row should show when it is not hovered. */
  function BorderFor(selection: Option<GameObject?>, obj: GameObject?): (b: BorderState)
    ensures b == SelectedBorder <==> IsSelected(selection, obj)
    ensures b == NormalBorder <==> !IsSelected(selection, obj)
  {
    if IsSelected(selection, obj) then SelectedBorder else NormalBorder
  }

  // ---------------------------------------------------------------------
  // Row widget

  /** A snapshot of a row widget's displayed state. */
  datatype RowState = RowState(
    labelText: string,
    editText: string,
    labelVisibility: Visibility,
    editVisibility: Visibility,
    border: BorderState,
    isEditMode: bool)

  /** A freshly created row: empty texts, everything visible, not editing. */
  const Created: RowState := RowState("", "", Visible, Visible, DesignBorder, false)

  /** NativeConstruct: the edit box, when bound, starts collapsed. */
  function Constructed(s: RowState, layout: RowLayout): (r: RowState)
    ensures layout.hasEditBox ==> r.editVisibility == Collapsed
    ensures r == s.(editVisibility := r.editVisibility)
    ensures !layout.hasEditBox ==> r == s
  {
    if layout.hasEditBox then s.(editVisibility := Collapsed) else s
  }

  /** Setup's text part: with a bound label and an object, label and edit box show its display name. */
  function Labelled(s: RowState, layout: RowLayout, name: Option<string>): (r: RowState)
    ensures layout.hasLabel && name.Some? ==> r.labelText == DisplayName(name.value) && r.editText == r.labelText
    ensures r == s.(labelText := r.labelText, editText := r.editText)
    ensures !(layout.hasLabel && name.Some?) ==> r == s
  {
    if layout.hasLabel && name.Some? then
      var shown := DisplayName(name.value);
      s.(labelText := shown, editText := shown)
    else s
  }

  /** UpdateBorderColor: a bound border shows whether the row is selected. */
  function Recolored(s: RowState, layout: RowLayout, selection: Option<GameObject?>, obj: GameObject?): (r: RowState)
    ensures layout.hasBorder ==> (r.border == SelectedBorder <==> IsSelected(selection, obj))
    ensures layout.hasBorder ==> (r.border == NormalBorder <==> !IsSelected(selection, obj))
    ensures r == s.(border := r.border)
    ensures !layout.hasBorder ==> r == s
  {
    if layout.hasBorder then s.(border := BorderFor(selection, obj)) else s
  }

  /** Recoloring twice is recoloring once. */
  lemma RecoloredIdempotent(s: RowState, layout: RowLayout, selection: Option<GameObject?>, obj: GameObject?)
    ensures Recolored(Recolored(s, layout, selection, obj), layout, selection, obj) == Recolored(s, layout, selection, obj)
  {
  }

  /** NativeOnMouseEnter: a bound border turns to the hover colour unless the row is selected. */
  function Hovered(s: RowState, layout: RowLayout, selection: Option<GameObject?>, obj: GameObject?): (r: RowState)
    ensures layout.hasBorder && !IsSelected(selection, obj) ==> r.border == HoverBorder
    ensures r == s.(border := r.border)
    ensures !(layout.hasBorder && !IsSelected(selection, obj)) ==> r == s
  {
    if layout.hasBorder && !IsSelected(selection, obj) then s.(border := HoverBorder) else s
  }

  /**
    ToggleEditMode: records the mode; when label and edit box are both bound,
    exactly one of them is visible, the edit box exactly in edit mode.
   */
  function EditToggled(s: RowState, layout: RowLayout, enable: bool): (r: RowState)
    ensures r.isEditMode == enable
    ensures layout.hasLabel && layout.hasEditBox ==>
              (r.labelVisibility == Visible) != (r.editVisibility == Visible) && (r.editVisibility == Visible <==> enable)
    ensures !(layout.hasLabel && layout.hasEditBox) ==> r.labelVisibility == s.labelVisibility && r.editVisibility == s.editVisibility
    ensures r == s.(isEditMode := r.isEditMode, labelVisibility := r.labelVisibility, editVisibility := r.editVisibility)
  {
    if layout.hasLabel && layout.hasEditBox then
      s.(isEditMode := enable,
         labelVisibility := if enable then Collapsed else Visible,
         editVisibility := if enable then Visible else Collapsed)
    else s.(isEditMode := enable)
  }

  /** The context-menu option key that puts a row into edit mode. */
  const RenameKey: string := "rename"

  /**
    OnElementClicked: the "rename" option, compared as engine strings are,
    without regard to case, enters edit mode; any other key changes nothing.
   */
  function ElementClicked(s: RowState, layout: RowLayout, key: string): (r: RowState)
    ensures SameName(key, RenameKey) ==> r.isEditMode && r.labelText == s.labelText && r.border == s.border
    ensures SameName(key, RenameKey) && layout.hasLabel && layout.hasEditBox ==>
              r.editVisibility == Visible && r.labelVisibility == Collapsed
    ensures !SameName(key, RenameKey) ==> r == s
  {
    if SameName(key, RenameKey) then EditToggled(s, layout, true) else s
  }

  /** The rename option is recognised whatever the case of its key. */
  lemma RenameKeyIgnoresCase(s: RowState, layout: RowLayout)
    ensures ElementClicked(s, layout, "Rename") == EditToggled(s, layout, true)
    ensures ElementClicked(s, layout, "RENAME") == EditToggled(s, layout, true)
  {
    assert FoldCase("Rename") == FoldCase(RenameKey);
    assert FoldCase("RENAME") == FoldCase(RenameKey);
  }

  /** Whether a commit method renames the object: Enter pressed, or focus moved away. */
  predicate Commits(how: CommitMethod) {
    how == OnEnter || how == OnUserMovedFocus
  }

  /**
    OnNameTextCommitted's effect on the row: a committing method puts the
    text in a bound label and leaves edit mode; other methods change nothing.
   */
  function NameCommitted(s: RowState, layout: RowLayout, text: string, how: CommitMethod): (r: RowState)
    ensures Commits(how) ==> !r.isEditMode && r.editText == s.editText && r.border == s.border
    ensures Commits(how) && layout.hasLabel ==> r.labelText == text
    ensures Commits(how) && !layout.hasLabel ==> r.labelText == s.labelText
    ensures Commits(how) && layout.hasLabel && layout.hasEditBox ==> r.labelVisibility == Visible && r.editVisibility == Collapsed
    ensures !Commits(how) ==> r == s
  {
    if Commits(how) then
      var s1 := if layout.hasLabel then s.(labelText := text) else s;
      EditToggled(s1, layout, false)
    else s
  }

  /** Renaming through the context menu and committing with Enter ends back out of edit mode with the new label. */
  lemma RenameRoundTrip(s: RowState, layout: RowLayout, text: string)
    requires layout.hasLabel && layout.hasEditBox
    ensures var entered := ElementClicked(s, layout, RenameKey);
            var done := NameCommitted(entered, layout, text, OnEnter);
            entered.isEditMode && !done.isEditMode && done.labelText == text &&
            done.labelVisibility == Visible && done.editVisibility == Collapsed
  {
  }

  /** One entry of the outliner panel's vertical box: a row widget and its left padding. */
  datatype Slot = Slot(widget: TruGameObjectWidget, leftPadding: int)

  class TruGameObjectWidget {
    var gameObject: GameObject?
    var parent: EditorUI?
    const layout: RowLayout
    var labelText: string
    var editText: string
    var labelVisibility: Visibility
    var editVisibility: Visibility
    var border: BorderState
    var isEditMode: bool

    function State(): RowState
      reads this
    {
      RowState(labelText, editText, labelVisibility, editVisibility, border, isEditMode)
    }

    /** Creation from the row widget class, before Setup. */
    constructor (layout: RowLayout)
      ensures this.layout == layout && gameObject == null && parent == null
      ensures State() == Created
    {
      this.layout := layout;
      gameObject := null;
      parent := null;
      labelText := "";
      editText := "";
      labelVisibility := Visible;
      editVisibility := Visible;
      border := DesignBorder;
      isEditMode := false;
    }

    method NativeConstruct()
      modifies this`editVisibility
      ensures State() == Constructed(old(State()), layout)
    {
      if layout.hasEditBox {
        editVisibility := Collapsed;
      }
    }

    /**
      Binds the row to an object and its panel, shows the object's display
      name and colours the border. The edit box is written without a check
      whenever the label is bound and an object is given, so it must then be
      bound too.
     */
    method Setup(g: GameObject?, ui: EditorUI?, selection: Option<GameObject?>)
      requires layout.hasLabel && g != null ==> layout.hasEditBox
      modifies this`gameObject, this`parent, this`labelText, this`editText, this`border
      ensures gameObject == g && parent == ui
      ensures State() == Recolored(Labelled(old(State()), layout, if g == null then None else Some(g.name)), layout, selection, g)
    {
      gameObject := g;
      parent := ui;
      if layout.hasLabel && g != null {
        var shown := DisplayName(g.name);
        labelText := shown;
        editText := shown;
      }
      UpdateBorderColor(selection);
    }

    method ToggleEditMode(enable: bool)
      modifies this`isEditMode, this`labelVisibility, this`editVisibility
      ensures State() == EditToggled(old(State()), layout, enable)
    {
      isEditMode := enable;
      if layout.hasLabel && layout.hasEditBox {
        labelVisibility := if isEditMode then Collapsed else Visible;
        editVisibility := if isEditMode then Visible else Collapsed;
      }
    }

    method OnElementClicked(key: string)
      modifies this`isEditMode, this`labelVisibility, this`editVisibility
      ensures State() == ElementClicked(old(State()), layout, key)
    {
      if SameName(key, RenameKey) {
        ToggleEditMode(true);
      }
    }

    method UpdateBorderColor(selection: Option<GameObject?>)
      modifies this`border
      ensures State() == Recolored(old(State()), layout, selection, gameObject)
    {
      if !layout.hasBorder {
        return;
      }
      if IsSelected(selection, gameObject) {
        border := SelectedBorder;
      } else {
        border := NormalBorder;
      }
    }

    method NativeOnMouseEnter(selection: Option<GameObject?>)
      modifies this`border
      ensures State() == Hovered(old(State()), layout, selection, gameObject)
    {
      if layout.hasBorder && !IsSelected(selection, gameObject) {
        border := HoverBorder;
      }
    }

    method NativeOnMouseLeave(selection: Option<GameObject?>)
      modifies this`border
      ensures State() == Recolored(old(State()), layout, selection, gameObject)
    {
      UpdateBorderColor(selection);
    }

    /** A committed name renames the object behind the row as well. */
    method OnNameTextCommitted(text: string, how: CommitMethod)
      modifies this`labelText, this`isEditMode, this`labelVisibility, this`editVisibility, gameObject
      ensures State() == NameCommitted(old(State()), layout, text, how)
      ensures gameObject != null && Commits(how) ==> gameObject.name == text
      ensures gameObject != null && !Commits(how) ==> gameObject.name == old(gameObject.name)
      ensures gameObject != null ==> gameObject.parent == old(gameObject.parent) && gameObject.location == old(gameObject.location)
    {
      if how == OnEnter || how == OnUserMovedFocus {
        if gameObject != null {
          gameObject.name := text;
        }
        if layout.hasLabel {
          labelText := text;
        }
        ToggleEditMode(false);
      }
    }

    /**
      A right-click is always consumed; outside edit mode it also opens the
      panel's context menu for this row. Other buttons fall through to the
      base widget, which does not consume them.
     */
    method NativeOnMouseButtonDown(button: MouseButton, hasPlayerController: bool) returns (reply: Reply)
      requires button == RightButton && !isEditMode ==> parent != null
      modifies if parent != null then {parent.contextMenu} else {}
      ensures reply == Handled <==> button == RightButton
      ensures parent != null && button == RightButton && !isEditMode ==>
                parent.contextMenu.State() == Shown(old(parent.contextMenu.State()), this, hasPlayerController)
      ensures parent != null && !(button == RightButton && !isEditMode) ==>
                parent.contextMenu.State() == old(parent.contextMenu.State())
    {
      if button == RightButton {
        if !isEditMode {
          parent.contextMenu.ShowMenuAtMousePosition(this, hasPlayerController);
        }
        return Handled;
      }
      return Unhandled;
    }
  }

  // ---------------------------------------------------------------------
  // Context menu

  /** One option of the context menu: the key it reports and the text it shows. */
  datatype OptionEntry = OptionEntry(key: string, text: string)

  /**
    `entries` lists the map `m`: each entry is a pair of the map, no key is
    listed twice and every key is listed.
   */
  ghost predicate Lists(entries: seq<OptionEntry>, m: map<string, string>) {
    && (forall i :: 0 <= i < |entries| ==> entries[i].key in m && m[entries[i].key] == entries[i].text)
    && (forall i, j :: 0 <= i < j < |entries| ==> entries[i].key != entries[j].key)
    && (forall k :: k in m ==> exists i :: 0 <= i < |entries| && entries[i].key == k)
  }

  ghost function KeysOf(entries: seq<OptionEntry>): set<string> {
    set i | 0 <= i < |entries| :: entries[i].key
  }

  /** Entries with pairwise distinct keys have as many keys as entries. */
  lemma {:induction false} DistinctKeysCount(entries: seq<OptionEntry>)
    requires forall i, j :: 0 <= i < j < |entries| ==> entries[i].key != entries[j].key
    ensures |KeysOf(entries)| == |entries|
    decreases |entries|
  {
    if entries != [] {
      var n := |entries| - 1;
      var front := entries[..n];
      DistinctKeysCount(front);
      assert KeysOf(entries) == KeysOf(front) + {entries[n].key} by {
        forall k | k in KeysOf(entries) ensures k in KeysOf(front) + {entries[n].key} {
          var i :| 0 <= i < |entries| && entries[i].key == k;
          if i < n {
            assert front[i].key == k;
          }
        }
        forall k | k in KeysOf(front) ensures k in KeysOf(entries) {
          var i :| 0 <= i < |front| && front[i].key == k;
          assert entries[i].key == k;
        }
      }
      assert entries[n].key !in KeysOf(front) by {
        forall i | 0 <= i < |front| ensures front[i].key != entries[n].key {
          assert front[i] == entries[i];
        }
      }
    }
  }

  /** A listing of a map has exactly one entry per key, and shows every pair. */
  lemma ListingSize(entries: seq<OptionEntry>, m: map<string, string>)
    requires Lists(entries, m)
    ensures |entries| == |m|
    ensures forall k :: k in m ==> OptionEntry(k, m[k]) in entries
  {
    DistinctKeysCount(entries);
    assert KeysOf(entries) == m.Keys by {
      forall k | k in m ensures k in KeysOf(entries) {
        var i :| 0 <= i < |entries| && entries[i].key == k;
      }
    }
    forall k | k in m ensures OptionEntry(k, m[k]) in entries {
      var i :| 0 <= i < |entries| && entries[i].key == k;
      assert entries[i] == OptionEntry(k, m[k]);
    }
  }

  /** A snapshot of the context menu's visibility and target row. */
  datatype MenuState = MenuState(item: TruGameObjectWidget?, visibility: Visibility)

  /** ShowMenuAtMousePosition: with a player controller, targets `it` and becomes visible. */
  function Shown(s: MenuState, it: TruGameObjectWidget?, hasPlayerController: bool): (r: MenuState)
    ensures hasPlayerController ==> r.item == it && r.visibility == Visible
    ensures !hasPlayerController ==> r == s
  {
    if hasPlayerController then MenuState(it, Visible) else s
  }

  /** Clicking an option or leaving the menu hides it; the target row is kept. */
  function Hidden(s: MenuState): (r: MenuState)
    ensures r.visibility == Collapsed && r.item == s.item
  {
    s.(visibility := Collapsed)
  }

  class ContextMenuWidget {
    var optionsMap: map<string, string>
    const hasOptionsBox: bool
    const hasOptionWidgetClass: bool
    /** The option widgets in the options box, in the order they were added. */
    var options: seq<OptionEntry>
    var item: TruGameObjectWidget?
    var visibility: Visibility

    function State(): MenuState
      reads this
    {
      MenuState(item, visibility)
    }

    constructor (optionsMap: map<string, string>, hasOptionsBox: bool, hasOptionWidgetClass: bool)
      ensures this.optionsMap == optionsMap && this.hasOptionsBox == hasOptionsBox
      ensures this.hasOptionWidgetClass == hasOptionWidgetClass
      ensures options == [] && item == null && visibility == Visible
    {
      this.optionsMap := optionsMap;
      this.hasOptionsBox := hasOptionsBox;
      this.hasOptionWidgetClass := hasOptionWidgetClass;
      options := [];
      item := null;
      visibility := Visible;
    }

    /** Builds the menu, then hides it. */
    method NativeConstruct()
      modifies this`options, this`visibility
      ensures visibility == Collapsed
      ensures hasOptionsBox && hasOptionWidgetClass ==> Lists(options, optionsMap)
      ensures hasOptionsBox && !hasOptionWidgetClass ==> options == []
      ensures !hasOptionsBox ==> options == old(options)
    {
      BuildMenu();
      visibility := Collapsed;
    }

    /** Replaces the options and rebuilds the menu from the new map alone. */
    method SetOptionsMap(newMap: map<string, string>)
      modifies this`optionsMap, this`options
      ensures optionsMap == newMap
      ensures hasOptionsBox && hasOptionWidgetClass ==> Lists(options, newMap)
      ensures hasOptionsBox && !hasOptionWidgetClass ==> options == []
      ensures !hasOptionsBox ==> options == old(options)
    {
      optionsMap := newMap;
      BuildMenu();
    }

    /**
      Without an options box nothing happens; otherwise the box is cleared
      and, when the option widget class is set, refilled with one option per
      pair of the map, in the map's iteration order.
     */
    method BuildMenu()
      modifies this`options
      ensures hasOptionsBox && hasOptionWidgetClass ==> Lists(options, optionsMap)
      ensures hasOptionsBox && !hasOptionWidgetClass ==> options == []
      ensures !hasOptionsBox ==> options == old(options)
    {
      if !hasOptionsBox {
        return;
      }
      options := [];
      if !hasOptionWidgetClass {
        return;
      }
      var remaining := optionsMap.Keys;
      while remaining != {}
        invariant remaining <= optionsMap.Keys
        invariant forall i :: 0 <= i < |options| ==> options[i].key in optionsMap && optionsMap[options[i].key] == options[i].text
        invariant forall i :: 0 <= i < |options| ==> options[i].key !in remaining
        invariant forall i, j :: 0 <= i < j < |options| ==> options[i].key != options[j].key
        invariant forall k :: k in optionsMap && k !in remaining ==> exists i :: 0 <= i < |options| && options[i].key == k
        decreases remaining
      {
        var k :| k in remaining;
        ghost var before := options;
        options := options + [OptionEntry(k, optionsMap[k])];
        remaining := remaining - {k};
        forall k' | k' in optionsMap && k' !in remaining
          ensures exists i :: 0 <= i < |options| && options[i].key == k'
        {
          if k' == k {
            assert options[|before|].key == k';
          } else {
            var i :| 0 <= i < |before| && before[i].key == k';
            assert options[i].key == k';
          }
        }
      }
    }

    /**
      Forwards the key to the target row, hides the menu and returns the key
      it broadcasts to the option-selected listeners.
     */
    method OnOptionClicked(key: string) returns (broadcast: string)
      modifies this`visibility, item
      ensures broadcast == key
      ensures State() == Hidden(old(State()))
      ensures item != null ==> item.State() == ElementClicked(old(item.State()), item.layout, key)
      ensures item != null ==> item.gameObject == old(item.gameObject) && item.parent == old(item.parent)
    {
      if item != null {
        item.OnElementClicked(key);
      }
      visibility := Collapsed;
      broadcast := key;
    }

    method NativeOnMouseLeave()
      modifies this`visibility
      ensures State() == Hidden(old(State()))
    {
      visibility := Collapsed;
    }

    method ShowMenuAtMousePosition(it: TruGameObjectWidget?, hasPlayerController: bool)
      modifies this`item, this`visibility
      ensures State() == Shown(old(State()), it, hasPlayerController)
    {
      if !hasPlayerController {
        return;
      }
      item := it;
      visibility := Visible;
    }
  }

  // ---------------------------------------------------------------------
  // Outliner panel

  /** The outliner's entries for the discovered game objects, each with the parent read from it. */
  ghost function Entries(found: seq<GameObject>): (e: seq<Entry>)
    reads found
    ensures |e| == |found|
    ensures forall i :: 0 <= i < |found| ==> e[i] == Entry(found[i], found[i].parent)
    ensures SingleParent(e)
    decreases |found|
  {
    if found == [] then []
    else Entries(found[..|found| - 1]) + [Entry(found[|found| - 1], found[|found| - 1].parent)]
  }

  /** The name of each discovered object. */
  ghost function NamesOf(found: seq<GameObject>): (names: map<GameObject, string>)
    reads found
    ensures forall i :: 0 <= i < |found| ==> found[i] in names && names[found[i]] == found[i].name
    ensures NamesMatch(names)
  {
    map o | o in found :: o.name
  }

  /** Each object in the map is named as the map says. */
  ghost predicate NamesMatch(names: map<GameObject, string>)
    reads names.Keys
  {
    forall o :: o in names ==> names[o] == o.name
  }

  /** The bucket of `p` in a parent-to-children map; no key means no children. */
  function Lookup(m: map<GameObject?, seq<GameObject>>, p: GameObject?): seq<GameObject> {
    if p in m then m[p] else []
  }

  /**
    The parent-to-children map holds each discovered object's bucket and
    the parentless bucket as the entries give them.
   */
  ghost predicate Buckets(m: map<GameObject?, seq<GameObject>>, e: seq<Entry>) {
    && Lookup(m, null) == ChildrenOf(e, null)
    && forall i {:trigger Lookup(m, e[i].obj)} :: 0 <= i < |e| ==> Lookup(m, e[i].obj) == ChildrenOf(e, e[i].obj)
  }

  /** The map gives the last object of a valid path the bucket the outline takes its children from. */
  lemma BucketOfLast(m: map<GameObject?, seq<GameObject>>, e: seq<Entry>, path: seq<GameObject>)
    requires Buckets(m, e) && ValidPath(e, path) && path != []
    ensures Lookup(m, path[|path| - 1]) == ChildrenOf(e, ParentKey(path))
  {
    var n := |path| - 1;
    assert Reports(e, path[n], Above(path, n));
  }

  /**
    A slot shows a row: its widget is bound to the row's object and panel,
    is padded by 20 per indent level, and shows what Setup and then
    NativeConstruct (run when the box takes the widget) leave on a fresh
    widget of the panel's row class.
   */
  ghost predicate SlotShows(s: Slot, r: Row, selection: Option<GameObject?>, ui: EditorUI, layout: RowLayout,
                            names: map<GameObject, string>)
    reads s.widget
  {
    && s.widget.gameObject == r.obj
    && s.widget.parent == ui
    && s.widget.layout == layout
    && s.leftPadding == r.indent * IndentPadding
    && s.widget.State() == Constructed(Recolored(Labelled(Created, layout, if r.obj in names then Some(names[r.obj]) else None), layout, selection, r.obj), layout)
  }

  ghost function WidgetsOf(slots: seq<Slot>): set<TruGameObjectWidget> {
    set i | 0 <= i < |slots| :: slots[i].widget
  }

  ghost function ObjectsOf(rows: seq<Row>): set<GameObject> {
    set i | 0 <= i < |rows| :: rows[i].obj
  }

  /** The slots show the rows, one slot per row, in order. */
  ghost predicate Shows(slots: seq<Slot>, rows: seq<Row>, selection: Option<GameObject?>, ui: EditorUI, layout: RowLayout,
                        names: map<GameObject, string>)
    reads WidgetsOf(slots)
  {
    && |slots| == |rows|
    && forall i :: 0 <= i < |slots| ==> SlotShows(slots[i], rows[i], selection, ui, layout, names)
  }

  lemma ShowsAppend(a: seq<Slot>, b: seq<Slot>, r: seq<Row>, s: seq<Row>,
                    selection: Option<GameObject?>, ui: EditorUI, layout: RowLayout, names: map<GameObject, string>)
    requires Shows(a, r, selection, ui, layout, names) && Shows(b, s, selection, ui, layout, names)
    ensures Shows(a + b, r + s, selection, ui, layout, names)
  {
    forall i | 0 <= i < |a + b|
      ensures SlotShows((a + b)[i], (r + s)[i], selection, ui, layout, names)
    {
      if i < |a| {
        assert (a + b)[i] == a[i] && (r + s)[i] == r[i];
      } else {
        assert (a + b)[i] == b[i - |a|] && (r + s)[i] == s[i - |a|];
      }
    }
  }

  /**
    The rows the subtree of `path` at `indent` has shown once its first `j`
    children are done: its own row, then the subtrees of those children.
   */
  ghost predicate SubtreeSoFar(e: seq<Entry>, path: seq<GameObject>, cs: seq<GameObject>, j: nat, indent: nat, rows: seq<Row>) {
    && SingleParent(e) && ValidPath(e, path) && path != []
    && cs == ChildrenOf(e, ParentKey(path)) && j <= |cs|
    && rows == [Row(path[|path| - 1], indent)] + Forest(e, path, j, indent + 1)
  }

  /** Before any child, the subtree of `path` shows just its own row. */
  lemma SubtreeStart(e: seq<Entry>, path: seq<GameObject>, cs: seq<GameObject>, indent: nat)
    requires SingleParent(e) && ValidPath(e, path) && path != []
    requires cs == ChildrenOf(e, ParentKey(path))
    ensures SubtreeSoFar(e, path, cs, 0, indent, [Row(path[|path| - 1], indent)])
  {
    assert Forest(e, path, 0, indent + 1) == [];
  }

  /** Once every child is done, the rows shown are the whole subtree. */
  lemma SubtreeEnd(e: seq<Entry>, path: seq<GameObject>, cs: seq<GameObject>, indent: nat, rows: seq<Row>)
    requires SubtreeSoFar(e, path, cs, |cs|, indent, rows)
    ensures rows == Walk(e, path, indent)
  {
  }

  /** The next child of `path` can be walked, and its subtree follows the rows shown so far. */
  lemma SubtreeStep(e: seq<Entry>, path: seq<GameObject>, cs: seq<GameObject>, j: nat, indent: nat, rows: seq<Row>)
    requires SubtreeSoFar(e, path, cs, j, indent, rows) && j < |cs|
    ensures ValidPath(e, path + [cs[j]]) && Measure(e, path + [cs[j]]) < Measure(e, path)
    ensures SubtreeSoFar(e, path, cs, j + 1, indent, rows + Walk(e, path + [cs[j]], indent + 1))
  {
    Extend(e, path, cs[j]);
    var row := [Row(path[|path| - 1], indent)];
    var walk := Walk(e, path + [cs[j]], indent + 1);
    assert Forest(e, path, j + 1, indent + 1) == Forest(e, path, j, indent + 1) + walk;
    ConcatAssoc(row, Forest(e, path, j, indent + 1), walk);
  }

  /** The next parentless object can be walked, and its subtree follows the earlier roots' rows. */
  lemma RootStep(e: seq<Entry>, j: nat)
    requires SingleParent(e) && j < |ChildrenOf(e, null)|
    ensures ValidPath(e, [ChildrenOf(e, null)[j]])
    ensures Forest(e, [], j + 1, 0) == Forest(e, [], j, 0) + Walk(e, [ChildrenOf(e, null)[j]], 0)
  {
    var c := ChildrenOf(e, null)[j];
    Extend(e, [], c);
    assert [] + [c] == [c];
  }

  lemma ConcatAssoc<T>(a: seq<T>, b: seq<T>, c: seq<T>)
    ensures a + b + c == a + (b + c)
  {
  }

  class EditorUI {
    const contextMenu: ContextMenuWidget
    /** Whether the ObjectsInLevel vertical box is bound. */
    const hasObjectsBox: bool
    /** The row widget class, when one is set: it fixes which sub-widgets every row binds. */
    const rowClass: Option<RowLayout>
    /** The children of the ObjectsInLevel box, top to bottom. */
    var children: seq<Slot>

    /** An unbound box never holds rows. */
    ghost predicate Valid()
      reads this
    {
      !hasObjectsBox ==> children == []
    }

    constructor (contextMenu: ContextMenuWidget, hasObjectsBox: bool, rowClass: Option<RowLayout>)
      ensures this.contextMenu == contextMenu && this.hasObjectsBox == hasObjectsBox && this.rowClass == rowClass
      ensures children == [] && Valid()
    {
      this.contextMenu := contextMenu;
      this.hasObjectsBox := hasObjectsBox;
      this.rowClass := rowClass;
      children := [];
    }

    /**
      Rebuilds the outliner from the game objects found in the level, in the
      order the level lists them: with a bound box, the old rows are removed
      and the new ones are exactly the outline of the discovered objects.
      Setup writes each row's edit box unchecked, so a row class that binds a
      label must bind the edit box too.
     */
    method Refresh(found: seq<GameObject>, selection: Option<GameObject?>)
      requires Valid()
      requires rowClass.Some? && rowClass.value.hasLabel ==> rowClass.value.hasEditBox
      modifies this`children
      ensures Valid()
      ensures !hasObjectsBox ==> children == old(children)
      ensures hasObjectsBox && rowClass.None? ==> children == []
      ensures hasObjectsBox && rowClass.Some? ==> Shows(children, Rows(Entries(found)), selection, this, rowClass.value, NamesOf(found))
      ensures forall i :: 0 <= i < |children| ==> fresh(children[i].widget)
    {
      if !hasObjectsBox {
        return;
      }
      children := [];
      ghost var e := Entries(found);
      var m := ParentToChildren(found);
      ghost var names := NamesOf(found);
      assert forall i :: 0 <= i < |e| ==> e[i].obj in names;
      // Without a row class no widget can be created, so every row is skipped.
      if rowClass.Some? {
        AddRoots(m, selection, e, names);
      }
    }

    /** The loop over the parentless objects: appends each one's subtree in turn. */
    method AddRoots(m: map<GameObject?, seq<GameObject>>, selection: Option<GameObject?>,
                    ghost e: seq<Entry>, ghost names: map<GameObject, string>)
      requires hasObjectsBox && rowClass.Some? && (rowClass.value.hasLabel ==> rowClass.value.hasEditBox)
      requires SingleParent(e) && Buckets(m, e)
      requires forall i :: 0 <= i < |e| ==> e[i].obj in names
      requires NamesMatch(names)
      requires children == []
      modifies this`children
      ensures Shows(children, Rows(e), selection, this, rowClass.value, names)
      ensures forall k :: 0 <= k < |children| ==> fresh(children[k].widget)
    {
      var roots := Lookup(m, null);
      var j := 0;
      while j < |roots|
        invariant 0 <= j <= |roots| && roots == ChildrenOf(e, null)
        invariant Shows(children, Forest(e, [], j, 0), selection, this, rowClass.value, names)
        invariant forall k :: 0 <= k < |children| ==> fresh(children[k].widget)
      {
        AddRootSubtree(roots, j, m, selection, e, names);
        j := j + 1;
      }
    }

    /** One step of the loop over the parentless objects: appends the subtree of root `j`. */
    method AddRootSubtree(roots: seq<GameObject>, j: nat, m: map<GameObject?, seq<GameObject>>,
                          selection: Option<GameObject?>, ghost e: seq<Entry>, ghost names: map<GameObject, string>)
      requires hasObjectsBox && rowClass.Some? && (rowClass.value.hasLabel ==> rowClass.value.hasEditBox)
      requires SingleParent(e) && Buckets(m, e) && roots == Lookup(m, null) && j < |roots|
      requires forall i :: 0 <= i < |e| ==> e[i].obj in names
      requires NamesMatch(names)
      requires Shows(children, Forest(e, [], j, 0), selection, this, rowClass.value, names)
      modifies this`children
      ensures Shows(children, Forest(e, [], j + 1, 0), selection, this, rowClass.value, names)
      ensures |old(children)| <= |children| && children[..|old(children)|] == old(children)
      ensures forall k :: |old(children)| <= k < |children| ==> fresh(children[k].widget)
    {
      ghost var before := children;
      RootStep(e, j);
      ghost var added := AddGameObjectWidget(roots[j], 0, m, selection, e, [roots[j]], names);
      ShowsAppend(before, added, Forest(e, [], j, 0), Walk(e, [roots[j]], 0),
                  selection, this, rowClass.value, names);
      assert children[..|before|] == before;
    }

    /**
      The parent-to-children map of the discovered objects: each object is
      appended to the bucket of the parent it reports, in discovery order.
     */
    method ParentToChildren(found: seq<GameObject>) returns (m: map<GameObject?, seq<GameObject>>)
      ensures Buckets(m, Entries(found))
    {
      ghost var e := Entries(found);
      m := map[];
      var i := 0;
      while i < |found|
        invariant 0 <= i <= |found|
        invariant forall p :: Lookup(m, p) == ChildrenUpTo(e, i, p)
      {
        var g := found[i];
        var parent := g.parent;
        m := m[parent := Lookup(m, parent) + [g]];
        i := i + 1;
      }
    }

    /**
      Creates a row widget for `g`, sets it up and adds it to the box, padded
      for `indent`; adding it to the box runs its NativeConstruct.
     */
    method AddRow(g: GameObject, indent: nat, selection: Option<GameObject?>, ghost names: map<GameObject, string>)
      returns (slot: Slot)
      requires rowClass.Some? && (rowClass.value.hasLabel ==> rowClass.value.hasEditBox)
      requires g in names && names[g] == g.name
      modifies this`children
      ensures children == old(children) + [slot]
      ensures SlotShows(slot, Row(g, indent), selection, this, rowClass.value, names)
      ensures fresh(slot.widget)
    {
      var w := new TruGameObjectWidget(rowClass.value);
      w.Setup(g, this, selection);
      slot := Slot(w, indent * IndentPadding);
      children := children + [slot];
      w.NativeConstruct();
    }

    /**
      Appends the row of `g` at `indent` and, right after it, the rows of its
      children one level deeper. `path` is the ghost chain of objects from a
      root down to `g` that the walk followed; it bounds the recursion.
     */
    method AddGameObjectWidget(g: GameObject, indent: nat, m: map<GameObject?, seq<GameObject>>,
                               selection: Option<GameObject?>, ghost e: seq<Entry>, ghost path: seq<GameObject>,
                               ghost names: map<GameObject, string>)
      returns (ghost added: seq<Slot>)
      requires hasObjectsBox && rowClass.Some? && (rowClass.value.hasLabel ==> rowClass.value.hasEditBox)
      requires SingleParent(e) && ValidPath(e, path) && path != [] && path[|path| - 1] == g
      requires Buckets(m, e)
      requires forall i :: 0 <= i < |e| ==> e[i].obj in names
      requires NamesMatch(names)
      modifies this`children
      ensures children == old(children) + added
      ensures Shows(added, Walk(e, path, indent), selection, this, rowClass.value, names)
      ensures forall k :: 0 <= k < |added| ==> fresh(added[k].widget)
      decreases Measure(e, path), 2
    {
      var slot := AddRow(g, indent, selection, names) by {
        var n := |path| - 1;
        assert Reports(e, path[n], Above(path, n));
      }
      var more := AddChildren(g, indent, m, selection, e, path, names, [slot]);
      added := [slot] + more;
    }

    /**
      The loop over the children `cs` of the last object of `path`: after
      the slots `done` of that object's own row, appends the subtree of
      each child in turn, one level deeper.
     */
    method AddChildren(g: GameObject, indent: nat, m: map<GameObject?, seq<GameObject>>,
                       selection: Option<GameObject?>, ghost e: seq<Entry>, ghost path: seq<GameObject>,
                       ghost names: map<GameObject, string>, ghost done: seq<Slot>)
      returns (ghost added: seq<Slot>)
      requires hasObjectsBox && rowClass.Some? && (rowClass.value.hasLabel ==> rowClass.value.hasEditBox)
      requires SingleParent(e) && ValidPath(e, path) && path != [] && path[|path| - 1] == g
      requires Buckets(m, e)
      requires forall i :: 0 <= i < |e| ==> e[i].obj in names
      requires NamesMatch(names)
      requires Shows(done, [Row(g, indent)], selection, this, rowClass.value, names)
      modifies this`children
      ensures children == old(children) + added
      ensures Shows(done + added, Walk(e, path, indent), selection, this, rowClass.value, names)
      ensures forall k :: 0 <= k < |added| ==> fresh(added[k].widget)
      decreases Measure(e, path), 1
    {
      var cs := Lookup(m, g);
      BucketOfLast(m, e, path);
      SubtreeStart(e, path, cs, indent);
      added := [];
      ghost var rows := [Row(path[|path| - 1], indent)];
      var j := 0;
      while j < |cs|
        invariant SubtreeSoFar(e, path, cs, j, indent, rows)
        invariant children == old(children) + added
        invariant Shows(done + added, rows, selection, this, rowClass.value, names)
        invariant forall k :: 0 <= k < |added| ==> fresh(added[k].widget)
      {
        ghost var more;
        more, rows := AddChildSubtree(cs, j, indent, m, selection, e, path, names, old(children), done, added, rows);
        added := added + more;
        j := j + 1;
      }
      SubtreeEnd(e, path, cs, indent, rows);
    }

    /**
      One step of the loop over the children of the last object of `path`:
      appends the subtree of child `j`, one level deeper, after the slots
      `added` already appended after `start`.
     */
    method AddChildSubtree(cs: seq<GameObject>, j: nat, indent: nat, m: map<GameObject?, seq<GameObject>>,
                           selection: Option<GameObject?>, ghost e: seq<Entry>, ghost path: seq<GameObject>,
                           ghost names: map<GameObject, string>, ghost start: seq<Slot>,
                           ghost done: seq<Slot>, ghost added: seq<Slot>, ghost rows: seq<Row>)
      returns (ghost more: seq<Slot>, ghost rows': seq<Row>)
      requires hasObjectsBox && rowClass.Some? && (rowClass.value.hasLabel ==> rowClass.value.hasEditBox)
      requires SubtreeSoFar(e, path, cs, j, indent, rows) && j < |cs|
      requires Buckets(m, e)
      requires forall i :: 0 <= i < |e| ==> e[i].obj in names
      requires NamesMatch(names)
      requires children == start + added
      requires Shows(done + added, rows, selection, this, rowClass.value, names)
      modifies this`children
      ensures SubtreeSoFar(e, path, cs, j + 1, indent, rows')
      ensures children == start + (added + more)
      ensures Shows(done + (added + more), rows', selection, this, rowClass.value, names)
      ensures forall k :: 0 <= k < |more| ==> fresh(more[k].widget)
      decreases Measure(e, path), 0
    {
      SubtreeStep(e, path, cs, j, indent, rows);
      more := AddGameObjectWidget(cs[j], indent + 1, m, selection, e, path + [cs[j]], names);
      ShowsAppend(done + added, more, rows, Walk(e, path + [cs[j]], indent + 1), selection, this, rowClass.value, names);
      ConcatAssoc(start, added, more);
      ConcatAssoc(done, added, more);
      rows' := rows + Walk(e, path + [cs[j]], indent + 1);
    }

    /** Recolours the border of every row for the current selection. */
    method OnSelectedObject(selection: Option<GameObject?>)
      modifies WidgetsOf(children)
      ensures forall i :: 0 <= i < |children| ==>
                children[i].widget.State() == Recolored(old(children[i].widget.State()), children[i].widget.layout, selection, children[i].widget.gameObject)
      ensures forall i :: 0 <= i < |children| ==>
                children[i].widget.gameObject == old(children[i].widget.gameObject) && children[i].widget.parent == old(children[i].widget.parent)
    {
      var j := 0;
      while j < |children|
        invariant 0 <= j <= |children|
        invariant forall i :: 0 <= i < |children| ==>
                    children[i].widget.gameObject == old(children[i].widget.gameObject) && children[i].widget.parent == old(children[i].widget.parent)
        invariant forall i :: 0 <= i < j ==>
                    children[i].widget.State() == Recolored(old(children[i].widget.State()), children[i].widget.layout, selection, children[i].widget.gameObject)
        invariant forall i :: 0 <= i < |children| ==>
                    children[i].widget.State() == old(children[i].widget.State()) ||
                    children[i].widget.State() == Recolored(old(children[i].widget.State()), children[i].widget.layout, selection, children[i].widget.gameObject)
      {
        var w := children[j].widget;
        RecoloredIdempotent(old(w.State()), w.layout, selection, w.gameObject);
        w.UpdateBorderColor(selection);
        j := j + 1;
      }
    }
  }
}
