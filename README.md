# Dropdown rubric editor, modelled in Dafny

This project models the browser-side editor for the values of a dropdown grading
rubric. It covers two versions of the code: `rubric-js/rubrics.js` and the earlier
`dropdown-edit.js`.

- **DropdownWidget** wraps a `<select>` and, optionally, a hidden input. It owns a
  value map (value name → score). `put`, `remove`, `clear` and `setValues` change
  the map and then call `redraw`. `redraw` rebuilds one option labelled
  `name [score]` per entry. When a hidden input is bound, `redraw` also writes the
  value string (`name:score` tokens joined by `,`) into it.
- **DropdownEditor** shows a modal dialog over a private scratch widget:
  - `edit(w)` copies `w`'s map into the scratch widget and remembers `w` as the
    current widget.
  - Add, Delete and Clear-all change only the scratch widget.
  - OK copies the scratch map back into the current widget and forgets that
    widget. Cancel only clears and closes.
- **RubricManager** appends rubric rows to a table. It numbers them 1, 2, 3, …,
  and derives the ids of each dropdown row's elements from that number.

Modules:
- `ValueMaps` (`valuemaps.dfy`) holds the shared part of the model:
  - the option label and the value-string token for one entry;
  - `Array.prototype.join`;
  - the loop over a map's entries (`CollectEntries`);
  - lemmas about what that loop produces.
- `ElementIds` (`element_ids.dfy`) writes a row number in decimal and proves that
  different rows get different ids.
- `Rubrics` (`rubrics.dfy`) models `rubric-js/rubrics.js`.
- `DropdownEdit` (`dropdown_edit.dfy`) models `dropdown-edit.js`.
- `Scenarios` (`scenarios.dfy`) holds client methods. Each one drives the classes
  through a short sequence of user actions and states what results.

Key order. A JavaScript object lists integer-like keys first, then the other keys
in insertion order. The model does not pin this order down. Each loop over a map
picks its next key with `:|`, and a ghost sequence (`shownKeys`, `hiddenKeys`)
records the order it used. Every property is then stated per entry or as a
multiset (`EntryCount`: how many entries render to a given string). None is stated
as an exact string or an exact option order.

Behaviour worth noting, which the model keeps as the code has it:
- Cancel leaves `currentWidget` set. Only `_save` unsets it
  (`rubric-js/rubrics.js:132`).
- Clear-all empties the scratch widget but does not reset the two text inputs.
- `setValues` redraws twice, because the `clear()` it starts with also redraws.
- Element ids are `dropdown-select-<n>`, `rubric-value-<n>` and
  `dropdown-edit-<n>`.
- Only dropdown rows can be added. The code has no numeric or checkbox add
  operation.
- `put` does not select the new entry in the `<select>`.

## Model

| member | source | states |
|---|---|---|
| `ValueMaps.Render` | rubric-js/rubrics.js:27-31 | a loop over the keys in a given order emits exactly one item per key visited |
| `ValueMaps.CollectEntries` | rubric-js/rubrics.js:27-31 | `for (k in m)` visits every key of the map exactly once, in some order, and collects one item per entry in that order |
| `ValueMaps.EnumerationListsKeys` | rubric-js/rubrics.js:27-31 | any order in which a loop visits the map lists exactly the map's keys, as many as the map has entries |
| `ValueMaps.EntryRendered` | rubric-js/rubrics.js:27-31 | the item for every entry of the map is among the rendered items |
| `ValueMaps.RenderCountsEntries` | rubric-js/rubrics.js:27-31 | each string occurs among the rendered items exactly as often as there are entries that render to it |
| `ValueMaps.OneItemPerEntry` | rubric-js/rubrics.js:24-36 | the rendered items number as many as the entries, include every entry's item, and have the per-entry multiset |
| `ValueMaps.RenderOrderIrrelevant` | rubric-js/rubrics.js:16-36 | two loops over the same map, in whatever orders, render the same multiset of labels or tokens |
| `ValueMaps.ValueStringEmptyIff` | rubric-js/rubrics.js:16-22 | the joined value string is `""` if and only if the map is empty |
| `ValueMaps.SingletonEnumeration` | dropdown-edit.js:14-23 | a map with one entry can be visited in one order only, so its options are exactly that entry's label |
| `ElementIds.NatToString` | rubric-js/rubrics.js:177-186 | the decimal form of the row count is a non-empty string of digits with no leading zero (it starts with `0` only for 0) |
| `ElementIds.DecimalRoundTrip` | rubric-js/rubrics.js:177-186 | reading the decimal form of a count back gives the count |
| `ElementIds.ElementIdsDistinct` | rubric-js/rubrics.js:177-186 | two rows with different counts never get the same element id for the same kind of element |
| `Rubrics.DropdownWidget.constructor` | rubric-js/rubrics.js:10-14 | a new widget is bound to its select and its optional hidden input, with an empty map and a display that matches it |
| `Rubrics.DropdownWidget.GetValueString` | rubric-js/rubrics.js:16-22 | the result is the `,`-join of one `name:score` token per entry, in a loop order that visits every key once; it is `""` exactly for the empty map |
| `Rubrics.DropdownWidget.Redraw` | rubric-js/rubrics.js:24-36 | the map stays as it is; the old options are replaced by one `k [score]` label per entry; a bound hidden input receives the value string; an unbound one is untouched |
| `Rubrics.DropdownWidget.Put` | rubric-js/rubrics.js:38-41 | afterwards `name` maps to `score` (overwriting any earlier score), every other entry is unchanged, and the display matches the map |
| `Rubrics.DropdownWidget.SetValues` | rubric-js/rubrics.js:43-50 | afterwards the map equals the argument exactly (earlier keys not in it are gone), and the display matches |
| `Rubrics.DropdownWidget.Remove` | rubric-js/rubrics.js:52-55 | afterwards exactly `name` is gone; an absent name changes nothing; the display matches the map |
| `Rubrics.DropdownWidget.Clear` | rubric-js/rubrics.js:57-60 | afterwards the map and the options are empty, and a bound hidden input holds `""` |
| `Rubrics.DisplayMatchesMap` | rubric-js/rubrics.js:24-36 | after any mutator, the options contain one label per entry (as a multiset, with every entry's label present); a bound hidden input holds one token per entry and is empty exactly when the map is |
| `Rubrics.DropdownEditor.constructor` | rubric-js/rubrics.js:71-92 | the editor starts closed, with no current widget, and a fresh, empty scratch widget bound to the dialog's select and to no hidden input |
| `Rubrics.DropdownEditor.OnAdd` | rubric-js/rubrics.js:94-100 | the typed entry is put into the scratch widget exactly when both inputs are non-empty; otherwise the scratch widget is untouched; the edited widget is never touched |
| `Rubrics.DropdownEditor.OnDelete` | rubric-js/rubrics.js:101-106 | the typed name is removed from the scratch widget exactly when it is non-empty; the edited widget is never touched |
| `Rubrics.DropdownEditor.OnClearAll` | rubric-js/rubrics.js:107-109 | the scratch widget is emptied; the edited widget is untouched |
| `Rubrics.DropdownEditor.ClearAndClose` | rubric-js/rubrics.js:112-117 | the dialog is closed, the scratch map and its options are empty, both inputs are `""`, and the current widget is kept |
| `Rubrics.DropdownEditor.Edit` | rubric-js/rubrics.js:119-123 | the dialog is open, `w` is the current widget, the scratch map equals `w`'s map, and `w` itself is unchanged |
| `Rubrics.DropdownEditor.Save` | rubric-js/rubrics.js:125-133 | with a current widget, its map becomes the scratch map (its display matches) and the editor forgets it; without one, nothing changes |
| `Rubrics.DropdownEditor.OnOk` | rubric-js/rubrics.js:77-81 | the scratch map as it was is copied into the current widget, if any, which is then unset; the dialog is closed, the scratch widget emptied and both inputs cleared |
| `Rubrics.DropdownEditor.OnCancel` | rubric-js/rubrics.js:82-85 | the dialog is closed, the scratch widget emptied and both inputs cleared; the current widget stays set and its map is untouched |
| `Rubrics.RubricManager.constructor` | rubric-js/rubrics.js:145-154 | a new manager has count 0 and an empty table |
| `Rubrics.RubricManager.AddRubric` | rubric-js/rubrics.js:159-165 | the count grows by exactly 1, the new row is stamped with the new count and appended, so row i always has ordinal i + 1 |
| `Rubrics.RubricManager.AddDropdown` | rubric-js/rubrics.js:168-187 | a DROPDOWN row with the next ordinal is appended, and a fresh, empty widget is bound to `dropdown-select-<n>` and `rubric-value-<n>`; the edit button is `dropdown-edit-<n>` |
| `DropdownEdit.DropdownWidget.constructor` | dropdown-edit.js:9-12 | a new widget is bound to its select, with an empty map and no options |
| `DropdownEdit.DropdownWidget.Redraw` | dropdown-edit.js:14-23 | the previous options are discarded and exactly one `k [v]` label per entry is shown |
| `DropdownEdit.DropdownWidget.Put` | dropdown-edit.js:25-28 | afterwards `name` maps to `score`, other entries are unchanged, and the display matches the map |
| `DropdownEdit.DropdownWidget.Remove` | dropdown-edit.js:30-32 | exactly `name` is deleted (an absent name changes nothing); the options are left as they were |
| `DropdownEdit.RemoveLeavesStaleOption` | dropdown-edit.js:30-32 | removing a displayed entry leaves its label among the options, which then outnumber the entries by one |
| `DropdownEdit.RowButton.constructor` | dropdown-edit.js:67-72 | the button's handler is bound to a widget with an empty map |
| `DropdownEdit.RowButton.Click` | dropdown-edit.js:69-72 | each click leaves the map exactly `{foo: bar}` and the options exactly `["foo [bar]"]`, so repeated clicks are idempotent |
| `DropdownEdit.RubricManager.constructor` | dropdown-edit.js:44-52 | a new manager has count 0 and an empty table |
| `DropdownEdit.RubricManager.AddRubric` | dropdown-edit.js:57-61 | the count grows by exactly 1 and the row is rendered with the new count |
| `DropdownEdit.RubricManager.AddDropdown` | dropdown-edit.js:64-73 | a row with the next ordinal is appended, with a fresh, empty widget on `dropdown-select-<n>` and a button bound to it |
| `Scenarios.PutTwiceLastWins` | rubric-js/rubrics.js:38-41 | `put(n, s1)` then `put(n, s2)` leaves exactly `{n: s2}` |
| `Scenarios.RemoveTwice` | rubric-js/rubrics.js:52-55 | a second `remove` of the same name leaves the map as the first one left it |
| `Scenarios.ClearShowsNothing` | rubric-js/rubrics.js:57-60 | whatever the map held, `clear` leaves no entries, no options and an empty hidden value |
| `Scenarios.EditAddCancel` | rubric-js/rubrics.js:82-85 | `edit(W)`, Add, Cancel leave W's map as it was, and W is still the current widget |
| `Scenarios.EditAddConfirm` | rubric-js/rubrics.js:77-81 | `edit(W)`, Add `name:score`, OK leave W's map as before plus that entry, show its label, and unset the current widget |
| `Scenarios.AddWithoutScore` | rubric-js/rubrics.js:94-100 | Add with an empty score puts nothing, so OK writes W's own map back unchanged |
| `Scenarios.EditorReuse` | rubric-js/rubrics.js:119-133 | `edit(W1)`, OK, `edit(W2)`, Delete, Clear-all, Cancel leave W1 and W2 with their original maps |
| `Scenarios.ThreeDropdownRows` | rubric-js/rubrics.js:159-186 | three dropdown rows get ordinals 1, 2, 3 and widgets on three different select elements, the first `dropdown-select-1` and the third `dropdown-select-3` |
| `Scenarios.LegacyRemoveLeavesStaleOption` | dropdown-edit.js:25-32 | `put(n, s)` then `remove(n)` leaves an empty map that still displays the option `n [s]` |
| `Scenarios.LegacyRepeatedClicks` | dropdown-edit.js:64-73 | any positive number of clicks on a new row's button leaves exactly `{foo: bar}`, displayed as the single option `foo [bar]` |

## Findings

| source | as written | input that shows it | evidently intended | confidence | as-written member | corrected member |
|---|---|---|---|---|---|---|
| dropdown-edit.js:30-32 | `remove` deletes the key but does not call `redraw` | `put("a", "1")` then `remove("a")`: the map is empty while the select still shows `a [1]` | `remove` redraws, as the later `rubric-js/rubrics.js:52-55` does | medium, not executed | `DropdownEdit.DropdownWidget.Remove`, exhibited by `Scenarios.LegacyRemoveLeavesStaleOption` | `Rubrics.DropdownWidget.Remove` |

## Left out

- The jQuery UI dialog configuration, `buttonset`, the row templates and their
  `render`, `createDocumentFragment`/`appendTo`, and `$()` lookups are library and
  DOM calls. The model keeps only what they read or write. The dialog is the flag
  `open`. A `<select>` is its option labels. An input is its string value. A
  rendered row is the values it was rendered with (`RubricRow`).
- Event binding, `preventDefault` and `setAddDropdownButton`
  (`rubric-js/rubrics.js:194-199`, `dropdown-edit.js:80-85`) only connect clicks to
  handlers. The handlers are modelled as methods that a client calls.
- `console.log` and `console.error` have no effect on state. This includes the
  `getValueString()` call that `_save` makes only for logging.
- The link from a row's edit button to `editor.edit` in `makeHandler` is left out.
  `makeHandler` is called as a plain function, so its `this.dropdownEditor` is not
  the manager's editor. `Rubrics.RubricManager.AddDropdown` returns the row's new
  widget and the edit button's id, and states no connection to
  `DropdownEditor.Edit`.
- Closing the dialog with Escape or its title-bar button is library behaviour. It
  runs neither the OK handler nor the Cancel handler, and is not modelled.
- The exact key order of a JavaScript object is not modelled: integer-like keys
  first, then insertion order. In the code, `redraw`'s loop and `getValueString`'s
  loop visit the keys in the same order. In the model the two orders may differ.
- Keys are not treated as object properties. In JavaScript, assigning a string to
  `valueMap["__proto__"]` is silently ignored. The model stores such a key like any
  other.
- Scores are strings. The code only ever passes input values or string literals.
- `Rubrics.DropdownWidget.constructor` starts with no options and an empty hidden
  value, and `DropdownEdit.DropdownWidget.constructor` starts with no options: both
  assume the row's `<select>` is empty when it is wrapped. What the row templates
  put in those elements is not part of this model.
- `Rubrics.DropdownEditor.constructor` starts with both text inputs empty. The
  dialog's markup is not part of this model.
- `Rubrics.DropdownEditor.Edit` requires that the edited widget is not the editor's
  own scratch widget. That widget is private to the editor, so no caller can pass
  it.
- `setValues` makes a new map object that is not shared with its argument. Dafny
  maps are values, so this holds by construction. Sharing between map objects
  cannot be expressed.
- In `if (this.$hidden)` at `rubric-js/rubrics.js:33`, the test is always true,
  because `$(undefined)` is an empty jQuery object. Writing to an empty selection
  does nothing. So the model writes the hidden value only when a hidden input is
  bound, which is the same observable behaviour.
- The loop in `dropdown-edit.js:17-18` assigns the undeclared variables `k` and
  `option`, which creates global variables. These globals are not modelled.
- `DropdownEdit.RubricManager` keeps only the id of the dialog it creates. That
  dialog is never used.
- `$.each` over the value map (`rubric-js/rubrics.js:18`, `:46`) is modelled as a
  plain loop over the keys. jQuery before 1.9 treats any object with a `length`
  property as array-like, so a value named `length` would make `getValueString`
  and `setValues` (and with them `edit` and OK) loop over indices instead. No
  jQuery version is fixed by the code; the model assumes the key loop.
- Labels are assigned through `option.innerHTML` (`rubric-js/rubrics.js:29`,
  `dropdown-edit.js:19`), so a name or score holding `<` or `&` is parsed as HTML.
  `options` holds the assigned string, not the text the browser displays.
- `rubricCount` is a JavaScript number (`rubric-js/rubrics.js:160`,
  `dropdown-edit.js:58`); `+= 1` stops growing at 2^53. The model's `nat` does not
  capture this, so "row i has ordinal i + 1" and "no ordinal is reused" are stated
  for unbounded counts; a page never adds that many rows.
