/**
 * Clients of the widgets, the editor and the managers: each drives a short
 * sequence of calls, as a page would, and states what it leaves behind. Every
 * statement is derived from the contracts of the members it calls.
 */
module Scenarios {
  import opened ValueMaps
  import opened ElementIds
  import Rubrics
  import DropdownEdit

  /** Two puts of the same name: the later score wins and no other entry is created. */
  method PutTwiceLastWins(name: string, first: string, second: string) returns (m: map<string, string>)
    ensures m == map[name := second]
  {
    var w := new Rubrics.DropdownWidget("select", Rubrics.None);
    w.Put(name, first);
    w.Put(name, second);
    m := w.valueMap;
  }

  /** Removing the same name twice: the second removal changes nothing and is no error. */
  method RemoveTwice(start: map<string, string>, name: string) returns (once: map<string, string>, twice: map<string, string>)
    ensures once == start - {name} && twice == once
  {
    var w := new Rubrics.DropdownWidget("select", Rubrics.None);
    w.SetValues(start);
    w.Remove(name);
    once := w.valueMap;
    w.Remove(name);
    twice := w.valueMap;
  }

  /** Clearing empties the map, the options and the bound hidden input, whatever was there. */
  method ClearShowsNothing(start: map<string, string>) returns (m: map<string, string>, options: seq<string>, hidden: string)
    ensures m == map[] && options == [] && hidden == ""
  {
    var w := new Rubrics.DropdownWidget("select", Rubrics.Some("hidden"));
    w.SetValues(start);
    w.Clear();
    m, options, hidden := w.valueMap, w.options, w.hidden;
  }

  /**
   * A row widget holding `start` is edited, one entry is added in the dialog,
   * and the dialog is cancelled: the row widget still holds `start`, and the
   * editor still remembers it.
   */
  method EditAddCancel(start: map<string, string>, name: string, score: string)
    returns (after: map<string, string>, stillCurrent: bool)
    requires name != "" && score != ""
    ensures after == start && stillCurrent
  {
    var editor := new Rubrics.DropdownEditor("#dialog");
    var w := new Rubrics.DropdownWidget("row-select", Rubrics.Some("row-hidden"));
    w.SetValues(start);
    editor.Edit(w);
    editor.valueInput, editor.scoreInput := name, score;
    editor.OnAdd();
    editor.OnCancel();
    after := w.valueMap;
    stillCurrent := editor.currentWidget == w;
  }

  /**
   * The same sequence ended with OK: the row widget holds `start` plus the new
   * entry, its display matches, and the editor forgets it.
   */
  method EditAddConfirm(start: map<string, string>, name: string, score: string)
    returns (after: map<string, string>, displayed: bool, forgotten: bool)
    requires name != "" && score != ""
    ensures after == start[name := score] && displayed && forgotten
  {
    var editor := new Rubrics.DropdownEditor("#dialog");
    var w := new Rubrics.DropdownWidget("row-select", Rubrics.Some("row-hidden"));
    w.SetValues(start);
    editor.Edit(w);
    editor.valueInput, editor.scoreInput := name, score;
    editor.OnAdd();
    editor.OnOk();
    after := w.valueMap;
    EntryRendered(w.shownKeys, w.valueMap, Label, name);
    displayed := Label(name, score) in w.options;
    forgotten := editor.currentWidget == null;
  }

  /** Add with an empty score puts nothing: OK writes back the map exactly as it was copied in. */
  method AddWithoutScore(start: map<string, string>, name: string) returns (after: map<string, string>)
    ensures after == start
  {
    var editor := new Rubrics.DropdownEditor("#dialog");
    var w := new Rubrics.DropdownWidget("row-select", Rubrics.None);
    w.SetValues(start);
    editor.Edit(w);
    editor.valueInput, editor.scoreInput := name, "";
    editor.OnAdd();
    editor.OnOk();
    after := w.valueMap;
  }

  /**
   * `edit(W1)`, OK, `edit(W2)`, delete and clear all, Cancel: W1 keeps what OK
   * wrote and W2 keeps its map, so nothing leaks from one session to the next.
   */
  method EditorReuse(m1: map<string, string>, m2: map<string, string>, name: string)
    returns (after1: map<string, string>, after2: map<string, string>)
    requires name != ""
    ensures after1 == m1 && after2 == m2
  {
    var editor := new Rubrics.DropdownEditor("#dialog");
    var w1 := new Rubrics.DropdownWidget("select-1", Rubrics.Some("hidden-1"));
    var w2 := new Rubrics.DropdownWidget("select-2", Rubrics.Some("hidden-2"));
    w1.SetValues(m1);
    w2.SetValues(m2);
    editor.Edit(w1);
    editor.OnOk();
    editor.Edit(w2);
    editor.valueInput := name;
    editor.OnDelete();
    editor.OnClearAll();
    editor.OnCancel();
    after1, after2 := w1.valueMap, w2.valueMap;
  }

  /** Three dropdown rows get ordinals 1, 2, 3 and widgets on three different <select> elements. */
  method ThreeDropdownRows() returns (c1: nat, c2: nat, c3: nat, s1: string, s2: string, s3: string)
    ensures c1 == 1 && c2 == 2 && c3 == 3
    ensures s1 == ElementId("dropdown-select-", 1) && s3 == ElementId("dropdown-select-", 3)
    ensures s1 != s2 && s2 != s3 && s1 != s3
  {
    var editor := new Rubrics.DropdownEditor("#dialog");
    var manager := new Rubrics.RubricManager("#rubrics", editor);
    var r1, w1, b1 := manager.AddDropdown();
    c1, s1 := r1.count, w1.select;
    var r2, w2, b2 := manager.AddDropdown();
    c2, s2 := r2.count, w2.select;
    var r3, w3, b3 := manager.AddDropdown();
    c3, s3 := r3.count, w3.select;
    ElementIdsDistinct("dropdown-select-", 1, 2);
    ElementIdsDistinct("dropdown-select-", 2, 3);
    ElementIdsDistinct("dropdown-select-", 1, 3);
  }

  /** In the earlier widget, removing an entry leaves its option on display until the next put. */
  method LegacyRemoveLeavesStaleOption(name: string, score: string) returns (m: map<string, string>, options: seq<string>)
    ensures m == map[] && options == [Label(name, score)]
  {
    var w := new DropdownEdit.DropdownWidget("select");
    w.Put(name, score);
    SingletonEnumeration(w.shownKeys, name, score);
    w.Remove(name);
    m, options := w.valueMap, w.options;
  }

  /** Clicking a new dropdown row's button any positive number of times leaves exactly `foo -> bar` on display. */
  method LegacyRepeatedClicks(clicks: nat) returns (m: map<string, string>, options: seq<string>)
    requires clicks >= 1
    ensures m == map["foo" := "bar"] && options == [Label("foo", "bar")]
  {
    var manager := new DropdownEdit.RubricManager("#rubrics", "#dialog");
    var row, button := manager.AddDropdown();
    button.Click();
    var i := 1;
    while i < clicks
      invariant 1 <= i <= clicks
      invariant button.Valid()
      invariant button.widget.valueMap == map["foo" := "bar"] && button.widget.options == [Label("foo", "bar")]
      modifies button.widget
    {
      button.Click();
      i := i + 1;
    }
    m, options := button.widget.valueMap, button.widget.options;
  }
}
