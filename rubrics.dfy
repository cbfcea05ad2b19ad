/**
 * The dropdown rubric editor of rubric-js/rubrics.js.
 *
 * - DropdownWidget wraps a <select> and, optionally, a hidden input. It owns a
 *   value map (name -> score). Every mutator ends in `Redraw`, which rebuilds
 *   the options from the map and writes the value string into the hidden input.
 * - DropdownEditor edits a copy of some widget's map in a modal dialog through
 *   a private scratch widget, and copies it back when OK is pressed.
 * - RubricManager appends rubric rows to a table and numbers them 1, 2, 3, ...
 *
 * DOM elements are reduced to what the code reads or writes: the option labels
 * of a <select>, the value of a hidden or text input, and whether the dialog
 * is open. Elements are named by their ids.
 */
module Rubrics {
  import opened ValueMaps
  import opened ElementIds

  datatype Option<T> = None | Some(value: T)

  class DropdownWidget {
    /** Id of the wrapped <select>. */
    const select: string
    /** Id of the hidden input receiving the value string, when one is bound. */
    const hiddenId: Option<string>

    var valueMap: map<string, string>
    /** Labels of the <option> children of the <select>, in document order. */
    var options: seq<string>
    /** Value of the bound hidden input (meaningless when none is bound). */
    var hidden: string

    /** The key order the last redraw visited for the options, and for the value string. */
    ghost var shownKeys: seq<string>
    ghost var hiddenKeys: seq<string>

    /** The display state matches the map: one option per entry, and the hidden input holds the value string. */
    ghost predicate Valid()
      reads this
    {
      && IsEnumeration(shownKeys, valueMap)
      && options == Render(shownKeys, valueMap, Label)
      && (hiddenId.Some? ==>
            IsEnumeration(hiddenKeys, valueMap) && hidden == Join(Render(hiddenKeys, valueMap, Token), ","))
    }

    constructor (select: string, hiddenId: Option<string>)
      ensures this.select == select && this.hiddenId == hiddenId
      ensures valueMap == map[] && options == [] && hidden == ""
      ensures Valid()
    {
      this.select := select;
      this.hiddenId := hiddenId;
      valueMap := map[];
      options := [];
      hidden := "";
      shownKeys := [];
      hiddenKeys := [];
    }

    /** The `,`-join of one `name:score` token per entry, in the order `order` the loop visited the map. */
    method GetValueString() returns (s: string, ghost order: seq<string>)
      ensures IsEnumeration(order, valueMap)
      ensures s == Join(Render(order, valueMap, Token), ",")
      ensures s == "" <==> valueMap == map[]
    {
      var pairs;
      pairs, order := CollectEntries(valueMap, Token);
      s := Join(pairs, ",");
      ValueStringEmptyIff(order, valueMap);
    }

    /** Rebuilds the options from the map and refreshes the hidden input when one is bound. */
    method Redraw()
      modifies this
      ensures valueMap == old(valueMap) && Valid()
      ensures hiddenId.None? ==> hidden == old(hidden)
    {
      var frag, shown := CollectEntries(valueMap, Label);
      var value, order := hidden, hiddenKeys;
      if hiddenId.Some? {
        value, order := GetValueString();
      }
      options, hidden := frag, value;
      shownKeys, hiddenKeys := shown, order;
    }

    /** Inserts or overwrites the entry for `name`. */
    method Put(name: string, score: string)
      modifies this
      ensures valueMap == old(valueMap)[name := score] && Valid()
      ensures hiddenId.None? ==> hidden == old(hidden)
    {
      valueMap := valueMap[name := score];
      Redraw();
    }

    /** Replaces the whole map by a copy of `m`: clear, copy every entry, redraw. */
    method SetValues(m: map<string, string>)
      modifies this
      ensures valueMap == m && Valid()
      ensures hiddenId.None? ==> hidden == old(hidden)
    {
      Clear();
      var remaining := m.Keys;
      while remaining != {}
        invariant remaining <= m.Keys
        invariant valueMap.Keys == m.Keys - remaining
        invariant forall k :: k in valueMap ==> valueMap[k] == m[k]
        invariant hiddenId.None? ==> hidden == old(hidden)
        decreases remaining
      {
        var k :| k in remaining;
        valueMap := valueMap[k := m[k]];
        remaining := remaining - {k};
      }
      Redraw();
    }

    /** Deletes the entry for `name`; a name that is absent leaves the map as it is. */
    method Remove(name: string)
      modifies this
      ensures valueMap == old(valueMap) - {name} && Valid()
      ensures name !in old(valueMap) ==> valueMap == old(valueMap)
      ensures hiddenId.None? ==> hidden == old(hidden)
    {
      valueMap := valueMap - {name};
      Redraw();
    }

    /** Empties the map, and with it the options. */
    method Clear()
      modifies this
      ensures valueMap == map[] && options == [] && Valid()
      ensures hiddenId.Some? ==> hidden == ""
      ensures hiddenId.None? ==> hidden == old(hidden)
    {
      valueMap := map[];
      Redraw();
    }
  }

  /** Whenever a widget is valid, its options and hidden value show each entry exactly once. */
  lemma DisplayMatchesMap(w: DropdownWidget)
    requires w.Valid()
    ensures |w.options| == |w.valueMap|
    ensures forall k :: k in w.valueMap ==> Label(k, w.valueMap[k]) in w.options
    ensures forall x :: multiset(w.options)[x] == EntryCount(w.valueMap, Label, x)
    ensures w.hiddenId.Some? ==>
      && (w.hidden == "" <==> w.valueMap == map[])
      && (forall x :: multiset(Render(w.hiddenKeys, w.valueMap, Token))[x] == EntryCount(w.valueMap, Token, x))
  {
    OneItemPerEntry(w.shownKeys, w.valueMap, Label);
    if w.hiddenId.Some? {
      OneItemPerEntry(w.hiddenKeys, w.valueMap, Token);
      ValueStringEmptyIff(w.hiddenKeys, w.valueMap);
    }
  }

  class DropdownEditor {
    const dialogId: string
    /** The private scratch widget, bound to the dialog's own <select> and to no hidden input. */
    const widget: DropdownWidget
    /** The widget whose map is being edited, if any. */
    var currentWidget: DropdownWidget?
    var open: bool
    var valueInput: string
    var scoreInput: string

    ghost predicate Valid()
      reads this
    {
      widget.hiddenId.None? && currentWidget != widget
    }

    constructor (dialogId: string)
      ensures this.dialogId == dialogId && Valid()
      ensures fresh(widget) && widget.select == dialogId + "-dropdown-select"
      ensures widget.valueMap == map[] && widget.Valid()
      ensures currentWidget == null && !open && valueInput == "" && scoreInput == ""
    {
      this.dialogId := dialogId;
      widget := new DropdownWidget(dialogId + "-dropdown-select", None);
      currentWidget := null;
      open := false;
      valueInput := "";
      scoreInput := "";
    }

    /** The Add button: puts the typed entry into the scratch widget when both inputs are non-empty. */
    method OnAdd()
      requires Valid()
      modifies widget
      ensures valueInput != "" && scoreInput != "" ==>
        widget.valueMap == old(widget.valueMap)[valueInput := scoreInput] && widget.Valid()
      ensures valueInput == "" || scoreInput == "" ==> unchanged(widget)
      ensures currentWidget != null ==> unchanged(currentWidget)
    {
      if valueInput != "" && scoreInput != "" {
        widget.Put(valueInput, scoreInput);
      }
    }

    /** The Delete button: removes the typed name from the scratch widget when it is non-empty. */
    method OnDelete()
      requires Valid()
      modifies widget
      ensures valueInput != "" ==> widget.valueMap == old(widget.valueMap) - {valueInput} && widget.Valid()
      ensures valueInput == "" ==> unchanged(widget)
      ensures currentWidget != null ==> unchanged(currentWidget)
    {
      if valueInput != "" {
        widget.Remove(valueInput);
      }
    }

    /** The Clear-all button: empties the scratch widget; the inputs keep what was typed. */
    method OnClearAll()
      requires Valid()
      modifies widget
      ensures widget.valueMap == map[] && widget.options == [] && widget.Valid()
      ensures currentWidget != null ==> unchanged(currentWidget)
    {
      widget.Clear();
    }

    /** Closes the dialog and resets the scratch widget and both inputs. */
    method ClearAndClose()
      requires Valid()
      modifies this, widget
      ensures !open && widget.valueMap == map[] && widget.options == [] && widget.Valid()
      ensures valueInput == "" && scoreInput == ""
      ensures currentWidget == old(currentWidget) && Valid()
    {
      open := false;
      widget.Clear();
      valueInput := "";
      scoreInput := "";
    }

    /** Opens the dialog on `w`: remembers it and copies its map into the scratch widget. */
    method Edit(w: DropdownWidget)
      requires Valid() && w != widget
      modifies this, widget
      ensures open && currentWidget == w && Valid()
      ensures widget.valueMap == w.valueMap && widget.Valid()
      ensures unchanged(w)
      ensures valueInput == old(valueInput) && scoreInput == old(scoreInput)
    {
      open := true;
      currentWidget := w;
      widget.SetValues(w.valueMap);
    }

    /** Copies the scratch map into the widget being edited and forgets it; without one, nothing happens. */
    method Save()
      requires Valid()
      modifies this, currentWidget
      ensures currentWidget == null && Valid()
      ensures old(currentWidget) != null ==>
        old(currentWidget).valueMap == widget.valueMap && old(currentWidget).Valid()
      ensures unchanged(widget)
      ensures open == old(open) && valueInput == old(valueInput) && scoreInput == old(scoreInput)
    {
      if currentWidget == null {
        return;
      }
      currentWidget.SetValues(widget.valueMap);
      currentWidget := null;
    }

    /** The OK button: close, save, then clear and close. */
    method OnOk()
      requires Valid()
      modifies this, widget, currentWidget
      ensures !open && currentWidget == null && Valid()
      ensures old(currentWidget) != null ==>
        old(currentWidget).valueMap == old(widget.valueMap) && old(currentWidget).Valid()
      ensures widget.valueMap == map[] && widget.options == [] && widget.Valid()
      ensures valueInput == "" && scoreInput == ""
    {
      open := false;
      Save();
      ClearAndClose();
    }

    /** The Cancel button: clear and close; the widget being edited is neither written nor forgotten. */
    method OnCancel()
      requires Valid()
      modifies this, widget
      ensures !open && currentWidget == old(currentWidget) && Valid()
      ensures currentWidget != null ==> unchanged(currentWidget)
      ensures widget.valueMap == map[] && widget.options == [] && widget.Valid()
      ensures valueInput == "" && scoreInput == ""
    {
      open := false;
      ClearAndClose();
    }
  }

  /** A rendered rubric row: the edit-widget template it embeds and the values it was rendered with. */
  datatype RubricRow = RubricRow(template: string, presentation: string, header: string, count: nat)

  const DropdownTemplate := "dropdownTemplate"

  class RubricManager {
    const tableId: string
    const dropdownEditor: DropdownEditor
    var rubricCount: nat
    /** The rows appended to the table, in order. */
    var table: seq<RubricRow>

    /** Row i of the table carries ordinal i + 1, and the counter is the last ordinal used. */
    ghost predicate Valid()
      reads this
    {
      |table| == rubricCount && forall i :: 0 <= i < |table| ==> table[i].count == i + 1
    }

    constructor (tableId: string, dropdownEditor: DropdownEditor)
      ensures this.tableId == tableId && this.dropdownEditor == dropdownEditor
      ensures rubricCount == 0 && table == [] && Valid()
    {
      this.tableId := tableId;
      this.dropdownEditor := dropdownEditor;
      rubricCount := 0;
      table := [];
    }

    /** Takes the next ordinal, stamps it on the row's values and appends the row. */
    method AddRubric(template: string, presentation: string, header: string) returns (row: RubricRow)
      requires Valid()
      modifies this
      ensures Valid() && rubricCount == old(rubricCount) + 1
      ensures row == RubricRow(template, presentation, header, rubricCount)
      ensures table == old(table) + [row]
    {
      rubricCount := rubricCount + 1;
      row := RubricRow(template, presentation, header, rubricCount);
      table := table + [row];
    }

    /**
     * Appends a dropdown row and creates the widget bound to that row's
     * <select> and hidden input, whose ids are derived from the new ordinal.
     */
    method AddDropdown() returns (row: RubricRow, widget: DropdownWidget, editButton: string)
      requires Valid()
      modifies this
      ensures Valid() && rubricCount == old(rubricCount) + 1 && table == old(table) + [row]
      ensures row == RubricRow(DropdownTemplate, "DROPDOWN", "Dropdown", rubricCount)
      ensures fresh(widget) && widget.valueMap == map[] && widget.Valid()
      ensures widget.select == ElementId("dropdown-select-", rubricCount)
      ensures widget.hiddenId == Some(ElementId("rubric-value-", rubricCount))
      ensures editButton == ElementId("dropdown-edit-", rubricCount)
    {
      row := AddRubric(DropdownTemplate, "DROPDOWN", "Dropdown");
      widget := new DropdownWidget(ElementId("dropdown-select-", rubricCount),
                                   Some(ElementId("rubric-value-", rubricCount)));
      editButton := ElementId("dropdown-edit-", rubricCount);
    }
  }
}
