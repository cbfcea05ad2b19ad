/**
 * The earlier dropdown rubric code of dropdown-edit.js: a widget without a
 * hidden input whose `remove` does not redraw, and a manager whose dropdown
 * rows carry one button that puts the fixed entry `foo -> bar`.
 */
module DropdownEdit {
  import opened ValueMaps
  import opened ElementIds

  class DropdownWidget {
    /** Id of the wrapped <select>. */
    const select: string
    var valueMap: map<string, string>
    /** Labels of the <option> children of the <select>, in document order. */
    var options: seq<string>
    /** The key order the last redraw visited. */
    ghost var shownKeys: seq<string>

    /** The options show the map: one option per entry. */
    ghost predicate Valid()
      reads this
    {
      IsEnumeration(shownKeys, valueMap) && options == Render(shownKeys, valueMap, Label)
    }

    constructor (select: string)
      ensures this.select == select && valueMap == map[] && options == [] && Valid()
    {
      this.select := select;
      valueMap := map[];
      options := [];
      shownKeys := [];
    }

    /** Discards the previous options and appends one option per entry. */
    method Redraw()
      modifies this
      ensures valueMap == old(valueMap) && Valid()
    {
      var frag, shown := CollectEntries(valueMap, Label);
      options, shownKeys := frag, shown;
    }

    /** Inserts or overwrites the entry for `name`, then redraws. */
    method Put(name: string, score: string)
      modifies this
      ensures valueMap == old(valueMap)[name := score] && Valid()
    {
      valueMap := valueMap[name := score];
      Redraw();
    }

    /** Deletes the entry for `name` and does NOT redraw: the options stay as they were. */
    method Remove(name: string)
      modifies this`valueMap
      ensures valueMap == old(valueMap) - {name}
      ensures options == old(options)
    {
      valueMap := valueMap - {name};
    }
  }

  /** After a Remove of a shown entry, the options still list the removed entry, so the display no longer matches. */
  lemma RemoveLeavesStaleOption(w: DropdownWidget, name: string)
    requires w.Valid() && name in w.valueMap
    ensures Label(name, w.valueMap[name]) in w.options
    ensures |w.options| == |w.valueMap - {name}| + 1
  {
    EntryRendered(w.shownKeys, w.valueMap, Label, name);
    EnumerationListsKeys(w.shownKeys, w.valueMap);
    assert (w.valueMap - {name}).Keys == w.valueMap.Keys - {name};
  }

  /** The click handler of a dropdown row's button, closed over that row's widget. */
  class RowButton {
    const widget: DropdownWidget

    /** Only this button writes the widget, so its map is empty or exactly `foo -> bar`. */
    ghost predicate Valid()
      reads this, widget
    {
      widget.valueMap == map[] || widget.valueMap == map["foo" := "bar"]
    }

    constructor (widget: DropdownWidget)
      requires widget.valueMap == map[]
      ensures this.widget == widget && Valid()
    {
      this.widget := widget;
    }

    /** `widget.put("foo", "bar")`: after any number of clicks, at least one, the map is exactly `foo -> bar`. */
    method Click()
      requires Valid()
      modifies widget
      ensures Valid() && widget.valueMap == map["foo" := "bar"]
      ensures widget.options == [Label("foo", "bar")]
    {
      widget.Put("foo", "bar");
      assert widget.valueMap == map["foo" := "bar"];
      SingletonEnumeration(widget.shownKeys, "foo", "bar");
    }
  }

  /** A rendered dropdown row: the template and the ordinal it was rendered with. */
  datatype RubricRow = RubricRow(template: string, count: nat)

  const DropdownRowTemplate := "dropdownRowTemplate"

  class RubricManager {
    const tableId: string
    const dropdownDialogId: string
    var rubricCount: nat
    /** The rows appended to the table, in order. */
    var table: seq<RubricRow>

    /** Row i of the table carries ordinal i + 1, and the counter is the last ordinal used. */
    ghost predicate Valid()
      reads this
    {
      |table| == rubricCount && forall i :: 0 <= i < |table| ==> table[i].count == i + 1
    }

    constructor (tableId: string, dropdownDialogId: string)
      ensures this.tableId == tableId && this.dropdownDialogId == dropdownDialogId
      ensures rubricCount == 0 && table == [] && Valid()
    {
      this.tableId := tableId;
      this.dropdownDialogId := dropdownDialogId;
      rubricCount := 0;
      table := [];
    }

    /** Takes the next ordinal and appends a row rendered with it. */
    method AddRubric(template: string) returns (row: RubricRow)
      requires Valid()
      modifies this
      ensures Valid() && rubricCount == old(rubricCount) + 1
      ensures row == RubricRow(template, rubricCount) && table == old(table) + [row]
    {
      rubricCount := rubricCount + 1;
      row := RubricRow(template, rubricCount);
      table := table + [row];
    }

    /** Appends a dropdown row, with a fresh widget on the row's <select> and the row's button bound to it. */
    method AddDropdown() returns (row: RubricRow, button: RowButton)
      requires Valid()
      modifies this
      ensures Valid() && rubricCount == old(rubricCount) + 1 && table == old(table) + [row]
      ensures row == RubricRow(DropdownRowTemplate, rubricCount)
      ensures fresh(button) && fresh(button.widget) && button.Valid()
      ensures button.widget.select == ElementId("dropdown-select-", rubricCount)
      ensures button.widget.valueMap == map[] && button.widget.Valid()
    {
      row := AddRubric(DropdownRowTemplate);
      var widget := new DropdownWidget(ElementId("dropdown-select-", rubricCount));
      button := new RowButton(widget);
    }
  }
}
