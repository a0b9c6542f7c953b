/** Two places where the handlers do not do what their interface shows,
    each modelled as written next to the evidently intended behaviour.

    1. The context menu of a task row (bound at task_manager.py:727) passes
       the row's position within its section ("未完成" or "已完成") to
       `edit_task`, `move_task` and `delete_task`, which index the whole
       list. Toggling (line 651) converts the position with
       `get_task_index` first; the menu does not.

    2. While a category button is dragged, the drop slot is the position,
       in the original button order, of the button the placeholder sits
       before (or the number of buttons past the last one). The release
       handler pops the dragged entry first and then inserts at that slot,
       so a downward drop lands one entry past the placeholder. */
module Findings {
  import opened Strings
  import opened Lists
  import opened Tasks
  import opened Categories
  import opened TaskStore

  // ------------------------------------------------ 1. menu row positions

  /** The menu's delete as written: row `k` of section `done` is deleted as
      if it were position `k` of the whole list. */
  function MenuDeleteAsWritten(s: Store, k: nat, done: bool, confirmed: bool): (r: Store)
    requires s.current in Names(s.categories)
    requires k < |Section(CurrentTasks(s), done)|
    ensures confirmed ==>
      multiset(AllTasks(r.categories)) + multiset{CurrentTasks(s)[k]} == multiset(AllTasks(s.categories))
    ensures !confirmed ==> r == s
  {
    DeleteTask(s, k, confirmed)
  }

  const Open: Task := Task("a", false, "t", None)
  const Done: Task := Task("b", true, "t", Some("t"))

  /** A category holding an uncompleted task followed by a completed one. */
  const Mixed: Store := Store([Category(Work, [Open, Done])], Work)

  /** Deleting the only row of the completed section of `Mixed` deletes the
      uncompleted task instead and leaves the completed one. */
  lemma MenuDeleteWrongRow()
    ensures Work in Names(Mixed.categories)
    ensures Section(CurrentTasks(Mixed), true) == [Done]
    ensures CurrentTasks(MenuDeleteAsWritten(Mixed, 0, true, true)) == [Done]
  {
    assert Names(Mixed.categories) == [Work];
    var ts := CurrentTasks(Mixed);
    assert ts == [Open, Done];
    assert ts[1..] == [Done] && ts[1..][1..] == [];
    var r := MenuDeleteAsWritten(Mixed, 0, true, true);
    assert Names(r.categories) == [Work];
    assert RemoveAt(ts, 0) == [Done];
  }

  /** The menu's delete as intended: the row is first turned into a list
      position, as `get_task_index` does for toggling, so the record shown
      in that row is the one removed. */
  function MenuDelete(s: Store, k: nat, done: bool, confirmed: bool): (r: Store)
    requires s.current in Names(s.categories)
    requires k < |Section(CurrentTasks(s), done)|
    ensures Names(r.categories) == Names(s.categories) && r.current == s.current
    ensures confirmed ==>
      multiset(AllTasks(r.categories)) + multiset{Section(CurrentTasks(s), done)[k]}
      == multiset(AllTasks(s.categories))
    ensures confirmed ==> |CurrentTasks(r)| + 1 == |CurrentTasks(s)|
    ensures !confirmed ==> r == s
    ensures Valid(s) ==> Valid(r)
    ensures TasksConsistent(s) ==> TasksConsistent(r)
  {
    var r := DeleteTask(s, TaskIndex(CurrentTasks(s), k, done), confirmed);
    SamePosition(s.categories, r.categories, s.current);
    r
  }

  /** On the `Mixed` store the intended delete removes the completed task. */
  lemma MenuDeleteRightRow()
    ensures Work in Names(Mixed.categories)
    ensures Section(CurrentTasks(Mixed), true) == [Done]
    ensures CurrentTasks(MenuDelete(Mixed, 0, true, true)) == [Open]
  {
    MenuDeleteWrongRow();
    var ts := CurrentTasks(Mixed);
    assert TaskIndex(ts, 0, true) == 1;
    var r := MenuDelete(Mixed, 0, true, true);
    assert Names(r.categories) == [Work];
    assert RemoveAt(ts, 1) == [Open];
  }

  /** The menu's move as intended: the record shown in the row is the one
      appended to the target category. */
  function MenuMove(s: Store, k: nat, done: bool, target: string): (r: Store)
    requires s.current in Names(s.categories) && target in Names(s.categories)
    requires k < |Section(CurrentTasks(s), done)|
    ensures Names(r.categories) == Names(s.categories) && r.current == s.current
    ensures multiset(AllTasks(r.categories)) == multiset(AllTasks(s.categories))
    ensures target != s.current ==>
      r.categories[Position(s.categories, target)].tasks
      == s.categories[Position(s.categories, target)].tasks + [Section(CurrentTasks(s), done)[k]]
    ensures target != s.current ==> |CurrentTasks(r)| + 1 == |CurrentTasks(s)|
    ensures Valid(s) ==> Valid(r)
    ensures TasksConsistent(s) ==> TasksConsistent(r)
  {
    var r := MoveTask(s, TaskIndex(CurrentTasks(s), k, done), target);
    SamePosition(s.categories, r.categories, s.current);
    r
  }

  /** The menu's edit as intended: the record shown in the row, and no
      other, gets the new text. */
  function MenuEdit(s: Store, k: nat, done: bool, input: string): (r: Store)
    requires s.current in Names(s.categories)
    requires k < |Section(CurrentTasks(s), done)|
    ensures Names(r.categories) == Names(s.categories) && r.current == s.current
    ensures Strip(input) == [] || Strip(input) == Section(CurrentTasks(s), done)[k].text ==> r == s
    ensures Strip(input) != [] && Strip(input) != Section(CurrentTasks(s), done)[k].text ==>
      && |CurrentTasks(r)| == |CurrentTasks(s)|
      && exists i :: 0 <= i < |CurrentTasks(s)| &&
           CurrentTasks(s)[i] == Section(CurrentTasks(s), done)[k] &&
           CurrentTasks(r)[i] == Section(CurrentTasks(s), done)[k].(text := Strip(input)) &&
           forall j :: 0 <= j < |CurrentTasks(s)| && j != i ==> CurrentTasks(r)[j] == CurrentTasks(s)[j]
    ensures Valid(s) ==> Valid(r)
    ensures TasksConsistent(s) ==> TasksConsistent(r)
  {
    var i := TaskIndex(CurrentTasks(s), k, done);
    var r := EditTask(s, i, input);
    SamePosition(s.categories, r.categories, s.current);
    r
  }

  // ------------------------------------------------- 2. drop slot of a drag

  /** As written, a drop below the dragged entry puts it right after the
      entry the placeholder was shown before, not right before it. */
  lemma ReorderOvershoots(s: Store, from: nat, slot: nat)
    requires from < slot < |s.categories|
    ensures Reorder(s, from, slot).categories[slot] == s.categories[from]
    ensures Reorder(s, from, slot).categories[slot - 1] == s.categories[slot]
  {
    var rest := RemoveAt(s.categories, from);
    assert rest[slot - 1] == s.categories[slot];
  }

  const A: Category := Category("A", [])
  const B: Category := Category("B", [])
  const C: Category := Category("C", [])

  /** Dragging "A" to the placeholder before "C" in A, B, C gives B, C, A
      where B, A, C was shown. */
  lemma ReorderDropCounterexample()
    ensures Reorder(Store([A, B, C], "A"), 0, 2).categories == [B, C, A]
  {
    var r := Reorder(Store([A, B, C], "A"), 0, 2).categories;
    ReorderOvershoots(Store([A, B, C], "A"), 0, 2);
    var rest := RemoveAt([A, B, C], 0);
    assert r[0] == RemoveAt(r, 2)[0] == rest[0] == B;
  }

  /** The release handler as intended: `slot` is a placeholder position in
      the original order (`0 ..= n`), so the insertion index is one less
      when the slot lies below the dragged entry. */
  function DropAt(s: Store, from: nat, slot: nat): (r: Store)
    requires from < |s.categories| && slot <= |s.categories|
    ensures slot == from || slot == from + 1 ==> r == s
    ensures |r.categories| == |s.categories| && r.current == s.current
    ensures multiset(r.categories) == multiset(s.categories)
    ensures slot < |s.categories| && slot != from ==>
      var j := if slot > from then slot - 1 else slot;
      && r.categories[j] == s.categories[from]
      && r.categories[j + 1] == s.categories[slot]
    ensures slot == |s.categories| ==> r.categories[|s.categories| - 1] == s.categories[from]
    ensures slot != from ==>
      RemoveAt(r.categories, if slot > from then slot - 1 else slot) == RemoveAt(s.categories, from)
    ensures Valid(s) ==> Valid(r)
    ensures TasksConsistent(s) ==> TasksConsistent(r)
  {
    var j := if slot > from then slot - 1 else slot;
    if j == from then Reorder(s, from, j)
    else
      DropAtPlacement(s, from, slot, j);
      Reorder(s, from, j)
  }

  lemma DropAtPlacement(s: Store, from: nat, slot: nat, j: nat)
    requires from < |s.categories| && slot <= |s.categories| && slot != from
    requires j == if slot > from then slot - 1 else slot
    ensures j < |s.categories|
    ensures Reorder(s, from, j).categories[j] == s.categories[from]
    ensures slot < |s.categories| ==> Reorder(s, from, j).categories[j + 1] == s.categories[slot]
  {
    var r := Reorder(s, from, j).categories;
    var rest := RemoveAt(s.categories, from);
    assert RemoveAt(r, j) == rest;
    if slot < |s.categories| {
      assert r[j + 1] == RemoveAt(r, j)[j];
      assert rest[j] == s.categories[slot];
    }
  }

  /** On A, B, C, dropping "A" before "C" now gives B, A, C. */
  lemma DropAtExample()
    ensures DropAt(Store([A, B, C], "A"), 0, 2).categories == [B, A, C]
  {
    var r := DropAt(Store([A, B, C], "A"), 0, 2).categories;
    var rest := RemoveAt([A, B, C], 0);
    assert rest[0] == B;
    assert r[0] == RemoveAt(r, 1)[0] == rest[0];
    assert r[1] == A && r[2] == C;
  }
}
