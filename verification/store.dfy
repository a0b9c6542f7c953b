/** The `TaskManager` task store: the ordered dict `categories` and the
    selected category's name `current`, with every handler's effect on them
    as a pure function. Dialog input is a parameter (the typed text, or
    whether the user confirmed), and so is the timestamp that
    `datetime.now()` would supply. */
module TaskStore {
  import opened Strings
  import opened Lists
  import opened Tasks
  import opened Categories

  datatype Store = Store(categories: seq<Category>, current: string)

  /** What the application keeps true between events: `categories` is a
      dict and `current_category` is one of its keys, so at least one
      category exists. */
  predicate Valid(s: Store)
  {
    DistinctNames(s.categories) && s.current in Names(s.categories)
  }

  /** Every stored task obeys the completion-date rule. */
  predicate TasksConsistent(s: Store)
  {
    forall i :: 0 <= i < |s.categories| ==> AllConsistent(s.categories[i].tasks)
  }

  function CurrentPos(s: Store): nat
    requires s.current in Names(s.categories)
  {
    Position(s.categories, s.current)
  }

  /** `self.categories[self.current_category]`. */
  function CurrentTasks(s: Store): seq<Task>
    requires s.current in Names(s.categories)
  {
    s.categories[CurrentPos(s)].tasks
  }

  const Work: string := "工作"
  const Personal: string := "个人"
  const Study: string := "学习"
  const Other: string := "其他"

  /** The four empty default categories, with `personal` as the second name. */
  function Seed(personal: string): seq<Category>
  {
    [Category(Work, []), Category(personal, []), Category(Study, []), Category(Other, [])]
  }

  /** The defaults of `__init__`, `select_category` and an empty task file. */
  const Defaults: seq<Category> := Seed(Personal)

  /** Two dicts with the same keys in the same order find a key at the same place. */
  lemma SamePosition(a: seq<Category>, b: seq<Category>, n: string)
    requires |a| == |b| && forall i :: 0 <= i < |a| ==> a[i].name == b[i].name
    requires n in Names(a)
    ensures Names(a) == Names(b) && Position(a, n) == Position(b, n)
  {
  }

  /** The store with category `p`'s list replaced. */
  function WithTasks(s: Store, p: nat, ts: seq<Task>): (r: Store)
    requires p < |s.categories|
    ensures Names(r.categories) == Names(s.categories) && r.current == s.current
    ensures Valid(s) ==> Valid(r)
    ensures TasksConsistent(s) && AllConsistent(ts) ==> TasksConsistent(r)
  {
    SetTasksKeys(s.categories, p, ts);
    Store(SetTasks(s.categories, p, ts), s.current)
  }

  // ---------------------------------------------------------------- tasks

  /** `add_task`: text that is empty once stripped is ignored; otherwise a
      new uncompleted record without completion date goes to the end of the
      current category, and nothing else changes. */
  function AddTask(s: Store, entry: string, now: string): (r: Store)
    requires s.current in Names(s.categories)
    ensures Strip(entry) == [] ==> r == s
    ensures Strip(entry) != [] ==>
      && |r.categories| == |s.categories|
      && r.categories[CurrentPos(s)].tasks
         == CurrentTasks(s) + [Task(Strip(entry), false, now, None)]
      && forall i :: 0 <= i < |s.categories| && i != CurrentPos(s) ==>
           r.categories[i] == s.categories[i]
    ensures Names(r.categories) == Names(s.categories) && r.current == s.current
    ensures Valid(s) ==> Valid(r)
    ensures TasksConsistent(s) ==> TasksConsistent(r)
  {
    var text := Strip(entry);
    if text == [] then s
    else WithTasks(s, CurrentPos(s), CurrentTasks(s) + [NewTask(text, now)])
  }

  /** `toggle_task`: the record at `index` of the current list flips its
      completion, carries the completion date exactly when now completed,
      and nothing else changes. */
  function ToggleTask(s: Store, index: nat, now: string): (r: Store)
    requires s.current in Names(s.categories)
    requires index < |CurrentTasks(s)|
    ensures Names(r.categories) == Names(s.categories) && r.current == s.current
    ensures |r.categories[CurrentPos(s)].tasks| == |CurrentTasks(s)|
    ensures
      var t, u := CurrentTasks(s)[index], r.categories[CurrentPos(s)].tasks[index];
      && u.completed == !t.completed
      && (u.completed ==> u.completedAt == Some(now))
      && (!u.completed ==> u.completedAt == None)
      && u.text == t.text && u.created == t.created
    ensures forall k :: 0 <= k < |CurrentTasks(s)| && k != index ==>
      r.categories[CurrentPos(s)].tasks[k] == CurrentTasks(s)[k]
    ensures forall i :: 0 <= i < |s.categories| && i != CurrentPos(s) ==>
      r.categories[i] == s.categories[i]
    ensures Valid(s) ==> Valid(r)
    ensures TasksConsistent(s) ==> TasksConsistent(r)
  {
    var ts := CurrentTasks(s);
    WithTasks(s, CurrentPos(s), ts[index := Toggle(ts[index], now)])
  }

  /** Toggling the same task twice restores its completion flag and every
      other task; a task that started uncompleted ends without completion
      date, so a consistent store whose task was uncompleted is restored. */
  lemma ToggleTaskTwice(s: Store, index: nat, first: string, second: string)
    requires Valid(s) && index < |CurrentTasks(s)|
    ensures ToggleTask(s, index, first).current in Names(ToggleTask(s, index, first).categories)
    ensures index < |CurrentTasks(ToggleTask(s, index, first))|
    ensures
      var r := ToggleTask(ToggleTask(s, index, first), index, second);
      && r.categories[CurrentPos(s)].tasks[index].completed == CurrentTasks(s)[index].completed
      && (!CurrentTasks(s)[index].completed ==> r.categories[CurrentPos(s)].tasks[index].completedAt == None)
      && (TasksConsistent(s) && !CurrentTasks(s)[index].completed ==> r == s)
  {
    var p := CurrentPos(s);
    var s1 := ToggleTask(s, index, first);
    SamePosition(s.categories, s1.categories, s.current);
    var r := ToggleTask(s1, index, second);
    SamePosition(s1.categories, r.categories, s.current);
    var t := CurrentTasks(s)[index];
    if TasksConsistent(s) && !t.completed {
      assert t in s.categories[p].tasks;
      ToggleTwice(t, first, second);
      assert r.categories[p].tasks == s.categories[p].tasks;
      assert r.categories == s.categories;
    }
  }

  /** `edit_task`: a new text that is empty once stripped, or equal to the
      old one, is ignored; otherwise only that record's text changes. */
  function EditTask(s: Store, index: nat, input: string): (r: Store)
    requires s.current in Names(s.categories)
    requires index < |CurrentTasks(s)|
    ensures Strip(input) == [] || Strip(input) == CurrentTasks(s)[index].text ==> r == s
    ensures Strip(input) != [] && Strip(input) != CurrentTasks(s)[index].text ==>
      && |r.categories| == |s.categories|
      && |r.categories[CurrentPos(s)].tasks| == |CurrentTasks(s)|
      && r.categories[CurrentPos(s)].tasks[index].text == Strip(input)
      && r.categories[CurrentPos(s)].tasks[index].completed == CurrentTasks(s)[index].completed
      && r.categories[CurrentPos(s)].tasks[index].created == CurrentTasks(s)[index].created
      && r.categories[CurrentPos(s)].tasks[index].completedAt == CurrentTasks(s)[index].completedAt
      && (forall k :: 0 <= k < |CurrentTasks(s)| && k != index ==>
            r.categories[CurrentPos(s)].tasks[k] == CurrentTasks(s)[k])
      && forall i :: 0 <= i < |s.categories| && i != CurrentPos(s) ==>
           r.categories[i] == s.categories[i]
    ensures Names(r.categories) == Names(s.categories) && r.current == s.current
    ensures Valid(s) ==> Valid(r)
    ensures TasksConsistent(s) ==> TasksConsistent(r)
  {
    var ts := CurrentTasks(s);
    var text := Strip(input);
    if text != [] && text != ts[index].text then
      var ts' := ts[index := ts[index].(text := text)];
      assert TasksConsistent(s) ==> AllConsistent(ts') by {
        if TasksConsistent(s) {
          assert ts[index] in ts;
        }
      }
      WithTasks(s, CurrentPos(s), ts')
    else s
  }

  /** `move_task`: the record at `index` leaves the current list and is
      appended to `target`'s; no record is created or lost. */
  function MoveTask(s: Store, index: nat, target: string): (r: Store)
    requires s.current in Names(s.categories) && target in Names(s.categories)
    requires index < |CurrentTasks(s)|
    ensures Names(r.categories) == Names(s.categories) && r.current == s.current
    ensures multiset(AllTasks(r.categories)) == multiset(AllTasks(s.categories))
    ensures |AllTasks(r.categories)| == |AllTasks(s.categories)|
    ensures target != s.current ==>
      var p, q := CurrentPos(s), Position(s.categories, target);
      && r.categories[p].tasks == RemoveAt(CurrentTasks(s), index)
      && r.categories[q].tasks == s.categories[q].tasks + [CurrentTasks(s)[index]]
      && forall i :: 0 <= i < |s.categories| && i != p && i != q ==>
           r.categories[i] == s.categories[i]
    ensures target == s.current ==>
      && r.categories[CurrentPos(s)].tasks
         == RemoveAt(CurrentTasks(s), index) + [CurrentTasks(s)[index]]
      && forall i :: 0 <= i < |s.categories| && i != CurrentPos(s) ==>
           r.categories[i] == s.categories[i]
    ensures Valid(s) ==> Valid(r)
    ensures TasksConsistent(s) ==> TasksConsistent(r)
  {
    var p, q := CurrentPos(s), Position(s.categories, target);
    var cs := Transfer(s.categories, p, index, q);
    TransferConserves(s.categories, p, index, q);
    assert p != q <==> target != s.current;
    assert TasksConsistent(s) ==> TasksConsistent(Store(cs, s.current)) by {
      if TasksConsistent(s) {
        TransferConsistent(s.categories, p, index, q);
      }
    }
    Store(cs, s.current)
  }

  /** `delete_task`: after confirmation the record at `index` leaves the
      current list; without it nothing changes. */
  function DeleteTask(s: Store, index: nat, confirmed: bool): (r: Store)
    requires s.current in Names(s.categories)
    requires confirmed ==> index < |CurrentTasks(s)|
    ensures !confirmed ==> r == s
    ensures confirmed ==>
      && |r.categories| == |s.categories|
      && r.categories[CurrentPos(s)].tasks == RemoveAt(CurrentTasks(s), index)
      && (forall i :: 0 <= i < |s.categories| && i != CurrentPos(s) ==>
            r.categories[i] == s.categories[i])
      && multiset(AllTasks(r.categories)) + multiset{CurrentTasks(s)[index]}
         == multiset(AllTasks(s.categories))
    ensures Names(r.categories) == Names(s.categories) && r.current == s.current
    ensures Valid(s) ==> Valid(r)
    ensures TasksConsistent(s) ==> TasksConsistent(r)
  {
    if confirmed then
      var ts := CurrentTasks(s);
      RemoveConserves(s.categories, CurrentPos(s), index);
      assert TasksConsistent(s) ==> AllConsistent(RemoveAt(ts, index)) by {
        if TasksConsistent(s) {
          forall u | u in RemoveAt(ts, index) ensures Consistent(u) {
            assert u in multiset(RemoveAt(ts, index));
          }
        }
      }
      WithTasks(s, CurrentPos(s), RemoveAt(ts, index))
    else s
  }

  /** Deleting the task just added restores the store. */
  lemma AddThenDeleteTask(s: Store, entry: string, now: string)
    requires Valid(s) && Strip(entry) != []
    ensures AddTask(s, entry, now).current in Names(AddTask(s, entry, now).categories)
    ensures DeleteTask(AddTask(s, entry, now), |CurrentTasks(s)|, true) == s
  {
    var a := AddTask(s, entry, now);
    var p := CurrentPos(s);
    SamePosition(s.categories, a.categories, s.current);
    var r := DeleteTask(a, |CurrentTasks(s)|, true);
    assert RemoveAt(CurrentTasks(s) + [NewTask(Strip(entry), now)], |CurrentTasks(s)|)
        == CurrentTasks(s);
    assert r.categories == s.categories;
  }

  /** `clear_completed`, after confirmation: every category keeps only its
      uncompleted tasks, in their order. */
  function ClearCompleted(s: Store, confirmed: bool): (r: Store)
    ensures !confirmed ==> r == s
    ensures Names(r.categories) == Names(s.categories) && r.current == s.current
    ensures confirmed ==> forall i :: 0 <= i < |s.categories| ==>
      && r.categories[i].tasks == Section(s.categories[i].tasks, false)
      && |r.categories[i].tasks| + Tally(s.categories[i].tasks).0 == |s.categories[i].tasks|
    ensures confirmed ==> forall i, t :: 0 <= i < |s.categories| && t in s.categories[i].tasks ==>
      (t in r.categories[i].tasks <==> !t.completed)
    ensures confirmed ==> forall i, t :: 0 <= i < |s.categories| && t in r.categories[i].tasks ==>
      !t.completed
    ensures Valid(s) ==> Valid(r)
    ensures TasksConsistent(s) ==> TasksConsistent(r)
  {
    if confirmed then
      var cs := seq(|s.categories|, i requires 0 <= i < |s.categories| =>
                      Category(s.categories[i].name, Section(s.categories[i].tasks, false)));
      assert Names(cs) == Names(s.categories);
      assert forall i :: 0 <= i < |s.categories| ==>
        forall t :: t in cs[i].tasks <==> t in s.categories[i].tasks && !t.completed
      by {
        forall i | 0 <= i < |s.categories| {
          SectionMembers(s.categories[i].tasks, false);
        }
      }
      Store(cs, s.current)
    else s
  }

  /** Clearing twice is clearing once. */
  lemma ClearCompletedTwice(s: Store)
    ensures ClearCompleted(ClearCompleted(s, true), true) == ClearCompleted(s, true)
  {
    var once := ClearCompleted(s, true);
    var twice := ClearCompleted(once, true);
    forall i | 0 <= i < |s.categories|
      ensures twice.categories[i] == once.categories[i]
    {
      SectionIdempotent(s.categories[i].tasks, false);
      assert Names(twice.categories)[i] == Names(once.categories)[i];
    }
  }

  /** Clearing keeps the relative order of the tasks that stay: two
      uncompleted tasks of a category stay in the same order. */
  lemma ClearCompletedKeepsOrder(s: Store, i: nat, j1: nat, j2: nat)
    requires i < |s.categories|
    requires j1 < j2 < |s.categories[i].tasks|
    requires !s.categories[i].tasks[j1].completed && !s.categories[i].tasks[j2].completed
    ensures
      var ts, kept := s.categories[i].tasks, ClearCompleted(s, true).categories[i].tasks;
      exists k1, k2 :: 0 <= k1 < k2 < |kept| && kept[k1] == ts[j1] && kept[k2] == ts[j2]
  {
    var ts := s.categories[i].tasks;
    var kept := ClearCompleted(s, true).categories[i].tasks;
    var k1, k2 := SectionKeepsOrder(ts, j1, j2, false);
    assert kept[k1] == ts[j1] && kept[k2] == ts[j2];
  }

  /** `update_task_list`: the uncompleted and the completed sections of the
      current category, which together hold exactly its tasks. */
  function Sections(s: Store): (r: (seq<Task>, seq<Task>))
    requires s.current in Names(s.categories)
    ensures forall t :: t in r.0 ==> !t.completed
    ensures forall t :: t in r.1 ==> t.completed
    ensures multiset(r.0) + multiset(r.1) == multiset(CurrentTasks(s))
    ensures |r.0| + |r.1| == |CurrentTasks(s)|
  {
    Partition(CurrentTasks(s));
    (Section(CurrentTasks(s), false), Section(CurrentTasks(s), true))
  }

  /** `update_category_list`: each category's name with its "(completed/total)"
      counts, in dict order. */
  function CategoryCounts(s: Store): (r: seq<(string, nat, nat)>)
    ensures |r| == |s.categories|
    ensures forall i :: 0 <= i < |r| ==>
      && r[i].0 == s.categories[i].name
      && r[i].1 <= r[i].2 == |s.categories[i].tasks|
      && r[i].1 + |Section(s.categories[i].tasks, false)| == r[i].2
  {
    seq(|s.categories|, i requires 0 <= i < |s.categories| =>
      var c := Tally(s.categories[i].tasks); (s.categories[i].name, c.0, c.1))
  }

  // ----------------------------------------------------------- categories

  /** `select_category`, also the click branch of the button-release
      handler: a known category becomes current; otherwise the first
      category does, and with no categories the defaults are seeded. */
  function SelectCategory(s: Store, category: string): (r: Store)
    requires DistinctNames(s.categories)
    ensures Valid(r)
    ensures category in Names(s.categories) ==> r == s.(current := category)
    ensures category !in Names(s.categories) && |s.categories| > 0 ==>
      r == s.(current := s.categories[0].name)
    ensures |s.categories| == 0 ==> r == Store(Defaults, Work)
  {
    if category in Names(s.categories) then s.(current := category)
    else if |s.categories| > 0 then
      assert Names(s.categories)[0] == s.categories[0].name;
      s.(current := s.categories[0].name)
    else
      assert Names(Defaults)[0] == Work;
      Store(Defaults, Work)
  }

  /** `add_category`: the dialog's answer (`None` when cancelled) is added
      as a new empty category at the end when it is non-empty and new. */
  function AddCategory(s: Store, input: Option<string>): (r: Store)
    requires DistinctNames(s.categories)
    ensures input.None? || input.value == [] || input.value in Names(s.categories) ==> r == s
    ensures input.Some? && input.value != [] && input.value !in Names(s.categories) ==>
      && r.categories == s.categories + [Category(input.value, [])]
      && r.current == s.current
    ensures DistinctNames(r.categories)
    ensures Valid(s) ==> Valid(r)
    ensures TasksConsistent(s) ==> TasksConsistent(r)
  {
    match input
    case None => s
    case Some(name) =>
      if name != [] && name !in Names(s.categories) then
        var cs := s.categories + [Category(name, [])];
        assert Names(cs) == Names(s.categories) + [name];
        Store(cs, s.current)
      else s
  }

  /** The rename dialog's acceptance test: non-empty, changed, and not
      already a key. */
  predicate RenameAccepted(cs: seq<Category>, category: string, newName: string)
  {
    newName != [] && newName != category && newName !in Names(cs)
  }

  /** `rename_category`'s `save_changes`: a rejected name changes nothing;
      an accepted one replaces the key in place, keeping its position and
      task list, and `current` follows the rename. */
  function RenameCategory(s: Store, category: string, input: string): (r: Store)
    requires DistinctNames(s.categories)
    requires RenameAccepted(s.categories, category, Strip(input)) ==> category in Names(s.categories)
    ensures !RenameAccepted(s.categories, category, Strip(input)) ==> r == s
    ensures RenameAccepted(s.categories, category, Strip(input)) ==>
      var p := Position(s.categories, category);
      && |r.categories| == |s.categories|
      && r.categories[p] == Category(Strip(input), s.categories[p].tasks)
      && (forall i :: 0 <= i < |s.categories| && i != p ==> r.categories[i] == s.categories[i])
      && category !in Names(r.categories)
      && r.current == (if s.current == category then Strip(input) else s.current)
    ensures DistinctNames(r.categories)
    ensures Valid(s) ==> Valid(r)
    ensures TasksConsistent(s) ==> TasksConsistent(r)
  {
    var name := Strip(input);
    if RenameAccepted(s.categories, category, name) then
      var p := Position(s.categories, category);
      var cs := s.categories[p := Category(name, s.categories[p].tasks)];
      RenameKeys(s.categories, p, name);
      Store(cs, if s.current == category then name else s.current)
    else s
  }

  /** Replacing the key at `p` by a fresh one keeps a dict a dict, drops the
      old key and keeps every other key. */
  lemma RenameKeys(cs: seq<Category>, p: nat, name: string)
    requires DistinctNames(cs) && p < |cs| && name !in Names(cs)
    ensures DistinctNames(cs[p := Category(name, cs[p].tasks)])
    ensures cs[p].name !in Names(cs[p := Category(name, cs[p].tasks)])
    ensures name in Names(cs[p := Category(name, cs[p].tasks)])
    ensures forall n :: n in Names(cs) && n != cs[p].name ==>
      n in Names(cs[p := Category(name, cs[p].tasks)])
  {
    var r := cs[p := Category(name, cs[p].tasks)];
    forall i | 0 <= i < |r| && i != p ensures r[i].name != name {
      assert Names(cs)[i] == cs[i].name;
    }
    assert Names(r)[p] == name;
    forall n | n in Names(cs) && n != cs[p].name ensures n in Names(r) {
      var k :| 0 <= k < |cs| && Names(cs)[k] == n;
      assert Names(r)[k] == n;
    }
  }

  /** Renaming back restores the store when the old name is one the dialog
      would produce itself (non-empty, with no white space at either end). */
  lemma RenameBack(s: Store, category: string, input: string)
    requires Valid(s)
    requires category in Names(s.categories) && category != [] && Stripped(category)
    requires RenameAccepted(s.categories, category, Strip(input))
    ensures RenameCategory(RenameCategory(s, category, input), Strip(input), category) == s
  {
    var name := Strip(input);
    var r := RenameCategory(s, category, input);
    var p := Position(s.categories, category);
    StripIdempotent(input);
    StripStripped(category);
    assert RenameAccepted(r.categories, name, category);
    PositionOf(r.categories, p);
    var back := RenameCategory(r, name, category);
    assert back.categories == s.categories;
  }

  /** `edit_category`'s `save_changes`, as written: it renames the current
      category and then makes the new name current under a test that
      compares the current name with itself. */
  function EditCategory(s: Store, input: string): (r: Store)
    requires DistinctNames(s.categories)
    requires s.current != [] && RenameAccepted(s.categories, s.current, Strip(input)) ==>
      s.current in Names(s.categories)
    ensures r.current == s.current || r.current == Strip(input)
    ensures Valid(s) ==> Valid(r)
  {
    if s.current == [] then s
    else
      var name := Strip(input);
      if RenameAccepted(s.categories, s.current, name) then
        var p := Position(s.categories, s.current);
        RenameKeys(s.categories, p, name);
        Store(s.categories[p := Category(name, s.categories[p].tasks)], name)
      else s
  }

  /** Because `edit_category` only renames the current category, its
      always-true test does no harm: it is `rename_category` applied to the
      current category. */
  lemma EditCategoryRenamesCurrent(s: Store, input: string)
    requires DistinctNames(s.categories) && s.current != []
    requires RenameAccepted(s.categories, s.current, Strip(input)) ==>
      s.current in Names(s.categories)
    ensures EditCategory(s, input) == RenameCategory(s, s.current, input)
  {
  }

  /** `delete_category`: with one category or fewer nothing happens; an
      unconfirmed delete changes nothing; a confirmed one removes that key
      alone, keeps the others in order, and if the deleted category was
      current, the first remaining one becomes current. */
  function DeleteCategory(s: Store, category: string, confirmed: bool): (r: Store)
    requires DistinctNames(s.categories)
    requires |s.categories| > 1 && confirmed ==> category in Names(s.categories)
    ensures |s.categories| <= 1 || !confirmed ==> r == s
    ensures |s.categories| >= 1 ==> |r.categories| >= 1
    ensures |s.categories| > 1 && confirmed ==>
      var p := Position(s.categories, category);
      && r.categories == RemoveAt(s.categories, p)
      && category !in Names(r.categories)
      && (forall n :: n in Names(s.categories) && n != category ==> n in Names(r.categories))
      && r.current == (if s.current == category then r.categories[0].name else s.current)
    ensures DistinctNames(r.categories)
    ensures Valid(s) ==> Valid(r)
    ensures TasksConsistent(s) ==> TasksConsistent(r)
  {
    if |s.categories| <= 1 || !confirmed then s
    else
      var p := Position(s.categories, category);
      var rest := RemoveAt(s.categories, p);
      RemoveAtDistinct(s.categories, p);
      assert Names(rest)[0] == rest[0].name;
      Store(rest, if s.current == category then rest[0].name else s.current)
  }

  /** Deleting a category just added restores the store. */
  lemma AddThenDeleteCategory(s: Store, name: string)
    requires Valid(s) && name != [] && name !in Names(s.categories)
    ensures name in Names(AddCategory(s, Some(name)).categories)
    ensures DeleteCategory(AddCategory(s, Some(name)), name, true) == s
  {
    var a := AddCategory(s, Some(name));
    assert |a.categories| > 1;
    assert Names(a.categories)[|s.categories|] == name;
    PositionOf(a.categories, |s.categories|);
    assert RemoveAt(a.categories, |s.categories|) == s.categories;
  }

  /** The drag branch of the button-release handler: when the drop index
      differs from the dragged one, the entry is popped and re-inserted
      there; the entries are permuted, the others keep their order and
      `current` is untouched. */
  function Reorder(s: Store, from: nat, to: nat): (r: Store)
    requires from < |s.categories|
    ensures to == from ==> r == s
    ensures r.current == s.current
    ensures |r.categories| == |s.categories|
    ensures multiset(r.categories) == multiset(s.categories)
    ensures r.categories[Min(to, |s.categories| - 1)] == s.categories[from]
    ensures RemoveAt(r.categories, Min(to, |s.categories| - 1)) == RemoveAt(s.categories, from)
    ensures DistinctNames(s.categories) ==> DistinctNames(r.categories)
    ensures Valid(s) ==> Valid(r)
    ensures TasksConsistent(s) ==> TasksConsistent(r)
  {
    if to != from then
      var r := Store(Move(s.categories, from, to), s.current);
      assert DistinctNames(s.categories) ==>
        DistinctNames(r.categories) && (Valid(s) ==> Valid(r)) by {
        if DistinctNames(s.categories) {
          MoveDistinct(s.categories, from, to);
        }
      }
      assert TasksConsistent(s) ==> TasksConsistent(r) by {
        if TasksConsistent(s) {
          forall i | 0 <= i < |r.categories| ensures AllConsistent(r.categories[i].tasks) {
            assert r.categories[i] in multiset(s.categories);
          }
        }
      }
      r
    else s
  }

  /** Dragging the entry back to where it came from restores the store. */
  lemma ReorderBack(s: Store, from: nat, to: nat)
    requires from < |s.categories|
    ensures Reorder(Reorder(s, from, to), Min(to, |s.categories| - 1), from) == s
  {
    if to != from {
      MoveBack(s.categories, from, to);
    }
  }

  /** `import_tasks`' `self.categories.update(imported_data)`. */
  function Import(s: Store, data: seq<Category>): (r: Store)
    requires DistinctNames(s.categories) && DistinctNames(data)
    ensures MergeResult(s.categories, data, r.categories)
    ensures DistinctNames(r.categories)
    ensures r.current == s.current
    ensures Valid(s) ==> Valid(r)
  {
    MergeSpec(s.categories, data);
    var r := Store(Merge(s.categories, data), s.current);
    assert Valid(s) ==> Valid(r) by {
      if Valid(s) {
        var p := CurrentPos(s);
        assert r.categories[p].name == s.current;
        assert Names(r.categories)[p] == s.current;
      }
    }
    r
  }
}
